/** What the tokens of an encoding string mean in `tools/gen_isa_a64.py`, by the
    characters they are made of. */
module ParseTokens {
  import opened Options
  import opened Text
  import opened ParseOp

  // ----- Splitting

  function Joined(parts: seq<string>, c: char): string {
    if parts == [] then [] else if |parts| == 1 then parts[0] else parts[0] + [c] + Joined(parts[1..], c)
  }

  /** Splitting cuts the text at every separator and nowhere else. */
  lemma {:induction false} SplitJoins(s: string, c: char)
    ensures Split(s, c) != [] && Joined(Split(s, c), c) == s
    ensures forall k :: 0 <= k < |Split(s, c)| ==> c !in Split(s, c)[k]
    decreases |s|
  {
    var i := Find(s, c);
    if i < |s| {
      var rest := Split(s[i + 1..], c);
      SplitJoins(s[i + 1..], c);
      assert Split(s, c)[1..] == rest;
      assert s == s[..i] + [c] + s[i + 1..];
    }
  }

  // ----- Numbers

  function DigitOf(d: nat): char
    requires d < 10
  {
    ("0123456789")[d]
  }

  /** `str(n)` */
  function Decimal(n: nat): string {
    if n < 10 then [DigitOf(n)] else Decimal(n / 10) + [DigitOf(n % 10)]
  }

  lemma DigitIs(d: nat)
    requires d < 10
    ensures Digit(DigitOf(d)) && DigitOf(d) as int == '0' as int + d
  {
  }

  /** Reading a printed number gives the number. */
  lemma {:induction false} NumberInvertsDecimal(n: nat)
    ensures IsDigits(Decimal(n)) && Number(Decimal(n)) == n
  {
    DigitIs(n % 10);
    if n >= 10 {
      var head := Decimal(n / 10);
      NumberInvertsDecimal(n / 10);
      var s := Decimal(n);
      assert s[..|s| - 1] == head && s[|s| - 1] == DigitOf(n % 10);
    }
  }

  // ----- Tokens

  /** No white space at either end: `strip` changes nothing. */
  lemma StripKeeps(s: string)
    requires s != [] && !Space(s[0]) && !Space(s[|s| - 1])
    ensures Strip(s) == s
  {
  }

  lemma FindsColon(name: string, digits: string)
    requires IsWord(name)
    ensures Find(name + ":" + digits, ':') == |name|
  {
    var s := name + ":" + digits;
    assert s[|name|] == ':';
    forall j | 0 <= j < |name| ensures s[j] != ':' {
      assert s[j] == name[j] && WordChar(name[j]);
    }
  }

  /** `name:width` is a field of that name and width. */
  lemma NamedIsField(name: string, width: nat)
    requires IsWord(name)
    ensures Classify(name + ":" + Decimal(width)) == Some(Field(name, width))
  {
    var digits := Decimal(width);
    var s := name + ":" + digits;
    NumberInvertsDecimal(width);
    FindsColon(name, digits);
    assert WordChar(name[0]) && Digit(digits[|digits| - 1]);
    assert s[0] == name[0] && s[|s| - 1] == digits[|digits| - 1] && s[|name|] == ':';
    StripKeeps(s);
    assert s[..|name|] == name && s[|name| + 1..] == digits;
  }

  /** Binary digits are a literal. */
  lemma BitsAreLiteral(bits: string)
    requires IsBits(bits)
    ensures Classify(bits) == Some(Literal(bits))
  {
    StripKeeps(bits);
  }

  /** A name without a width has it from the table. */
  lemma BareIsField(name: string, width: nat)
    requires IsWord(name) && !IsBits(name) && Bare(name) == Some(width)
    ensures Classify(name) == Some(Field(name, width))
  {
    assert WordChar(name[0]) && WordChar(name[|name| - 1]);
    StripKeeps(name);
    forall i | 0 <= i < |name| ensures name[i] != ':' {
      assert WordChar(name[i]);
    }
  }

  /** Registers have five bits, conditions and flags four, options three, shift
      operators two. */
  lemma BareWidths(name: string)
    ensures Bare(name) == Some(5) <==>
      name in ["Rm", "Rn", "Rd", "Ra", "Rt", "Rt2", "Rs", "Rs2", "Rd2", "Rdn"]
    ensures Bare(name) == Some(4) <==> name in ["cond", "nzcv", "CRm", "CRn"]
    ensures Bare(name) == Some(3) <==> name == "option"
    ensures Bare(name) == Some(2) <==> name == "sop"
    ensures Bare(name).Some? ==> 2 <= Bare(name).value <= 5
  {
  }
}
