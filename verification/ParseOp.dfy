/** `parse_op` of `tools/gen_isa_a64.py`: the encoding string of an instruction and
    the word it lays out. A word is the set of its one bits, so `|` is union and
    `<< pos` moves every member by `pos`. */
module ParseOp {
  import opened Options
  import opened Text

  type Word = set<nat>

  /** Name to `(width, shift)`. */
  type Fields = map<string, (nat, nat)>

  datatype Layout = Layout(base: Word, fields: Fields, pos: nat)

  // ----- Tokens

  datatype Token = Literal(bits: string) | Field(name: string, width: nat)

  predicate Digit(c: char) { '0' <= c <= '9' }
  predicate WordChar(c: char) { 'a' <= c <= 'z' || 'A' <= c <= 'Z' || Digit(c) || c == '_' }

  /** `[01]+` */
  predicate IsBits(s: string) { s != [] && forall i :: 0 <= i < |s| ==> s[i] == '0' || s[i] == '1' }

  predicate IsDigits(s: string) { s != [] && forall i :: 0 <= i < |s| ==> Digit(s[i]) }
  predicate IsWord(s: string) { s != [] && forall i :: 0 <= i < |s| ==> WordChar(s[i]) }

  function Number(s: string): nat
    requires IsDigits(s)
  {
    var d: nat := assert Digit(s[|s| - 1]); s[|s| - 1] as int - '0' as int;
    if |s| == 1 then d else Number(s[..|s| - 1]) * 10 + d
  }

  /** `(\w+):(\d+)` */
  predicate IsNamed(s: string) {
    var i := Find(s, ':');
    i < |s| && IsWord(s[..i]) && IsDigits(s[i + 1..])
  }

  /** The `BARE` table. */
  function Bare(s: string): Option<nat> {
    if s in {"Rm", "Rn", "Rd", "Ra", "Rt", "Rt2", "Rs", "Rs2", "Rd2", "Rdn"} then Some(5)
    else if s in {"cond", "nzcv", "CRm", "CRn"} then Some(4)
    else if s == "sop" then Some(2)
    else if s == "option" then Some(3)
    else None
  }

  function Classify(tok: string): Option<Token> {
    var s := Strip(tok);
    if IsBits(s) then Some(Literal(s))
    else if IsNamed(s) then
      var i := Find(s, ':');
      Some(Field(s[..i], Number(s[i + 1..])))
    else if Bare(s).Some? then Some(Field(s, Bare(s).value))
    else None
  }

  function Width(t: Token): nat { match t case Literal(bits) => |bits| case Field(_, w) => w }

  // ----- The loop

  /** `int(bits, 2) << pos` */
  function Ones(bits: string, pos: nat): Word {
    if bits == [] then {} else Ones(bits[1..], pos) + (if bits[0] == '1' then {pos + |bits| - 1} else {})
  }

  function Step(s: Layout, t: Token): Option<Layout> {
    match t
    case Literal(bits) => Some(Layout(s.base + Ones(bits, s.pos), s.fields, s.pos + |bits|))
    case Field(name, width) =>
      if name in s.fields then None
      else Some(Layout(s.base, s.fields[name := (width, s.pos)], s.pos + width))
  }

  /** What each token reads as. */
  function Tokens(toks: seq<string>): (ts: seq<Option<Token>>)
    ensures |ts| == |toks| && forall i :: 0 <= i < |ts| ==> ts[i] == Classify(toks[i])
  {
    if toks == [] then [] else [Classify(toks[0])] + Tokens(toks[1..])
  }

  /** The tokens below `n`, the last one first. */
  function From(toks: seq<Option<Token>>, n: nat, s: Layout): Option<Layout>
    requires n <= |toks|
  {
    if n == 0 then Some(s)
    else
      match toks[n - 1]
      case None => None
      case Some(t) =>
        match Step(s, t)
        case None => None
        case Some(next) => From(toks, n - 1, next)
  }

  const EMPTY_LAYOUT := Layout({}, map[], 0)

  /** `base & 0xFFFFFFFF` */
  function Low32(w: Word): Word { set b | b in w && b < 32 }

  function Parse(op: string): Option<(Word, Fields)> {
    Parsed(Tokens(Split(op, '|')))
  }

  function Parsed(toks: seq<Option<Token>>): Option<(Word, Fields)> {
    match From(toks, |toks|, EMPTY_LAYOUT)
    case None => None
    case Some(s) => if s.pos == 32 then Some((Low32(s.base), s.fields)) else None
  }

  method ParseOp(op: string) returns (r: Option<(Word, Fields)>)
    ensures r == Parse(op)
  {
    r := ParseTokens(Tokens(Split(op, '|')));
  }

  method ParseTokens(toks: seq<Option<Token>>) returns (r: Option<(Word, Fields)>)
    ensures r == Parsed(toks)
  {
    var s := EMPTY_LAYOUT;
    var n := |toks|;
    while n > 0
      invariant 0 <= n <= |toks| && From(toks, n, s) == From(toks, |toks|, EMPTY_LAYOUT)
    {
      n := n - 1;
      match toks[n] {
        case Some(Literal(bits)) =>
          s := Layout(s.base + Ones(bits, s.pos), s.fields, s.pos + |bits|);
        case Some(Field(name, width)) =>
          if name in s.fields {
            return None;
          }
          s := Layout(s.base, s.fields[name := (width, s.pos)], s.pos + width);
        case None =>
          return None;
      }
    }
    r := if s.pos == 32 then Some((Low32(s.base), s.fields)) else None;
  }

  // ----- Where tokens lie

  /** The bits the tokens from `k` on take: also the shift of the token before them. */
  function Pos(ts: seq<Token>, k: nat): nat
    requires k <= |ts|
    decreases |ts| - k
  {
    if k == |ts| then 0 else Width(ts[k]) + Pos(ts, k + 1)
  }

  ghost predicate Distinct(ts: seq<Token>, k: nat)
    requires k <= |ts|
  {
    forall i, j :: k <= i < j < |ts| && ts[i].Field? && ts[j].Field? ==> ts[i].name != ts[j].name
  }

  ghost predicate Reads(toks: seq<Option<Token>>, ts: seq<Token>) {
    |toks| == |ts| && forall i :: 0 <= i < |ts| ==> toks[i] == Some(ts[i])
  }

  /** Token `k` is laid out: a literal's digits are in the base, the last one at the
      lowest bit; a field is under its name. */
  ghost predicate Placed(ts: seq<Token>, k: nat, s: Layout)
    requires k < |ts|
  {
    match ts[k]
    case Literal(bits) =>
      forall i :: 0 <= i < |bits| ==> (BitOf(ts, k, i) in s.base <==> bits[i] == '1')
    case Field(name, width) => name in s.fields && s.fields[name] == (width, Pos(ts, k + 1))
  }

  function BitOf(ts: seq<Token>, k: nat, i: nat): int
    requires k < |ts|
  {
    Pos(ts, k + 1) + Width(ts[k]) - 1 - i
  }

  /** Bit `b` belongs to token `k`. */
  predicate Covers(ts: seq<Token>, k: nat, b: nat)
    requires k < |ts|
  {
    Pos(ts, k + 1) <= b < Pos(ts, k)
  }

  /** The layout of the tokens from `n` on: all placed, nothing else. */
  ghost predicate LaidOut(ts: seq<Token>, n: nat, s: Layout)
    requires n <= |ts|
  {
    && s.pos == Pos(ts, n) && Distinct(ts, n)
    && (forall k :: n <= k < |ts| ==> Placed(ts, k, s))
    && (forall b :: b in s.base ==> exists k :: n <= k < |ts| && ts[k].Literal? && Covers(ts, k, b))
    && (forall name :: name in s.fields ==> exists k :: n <= k < |ts| && Names(ts, k, name))
  }

  predicate Names(ts: seq<Token>, k: nat, name: string)
    requires k < |ts|
  {
    ts[k].Field? && ts[k].name == name
  }

  lemma {:induction false} PosMonotone(ts: seq<Token>, j: nat, k: nat)
    requires j <= k <= |ts|
    ensures Pos(ts, k) <= Pos(ts, j)
    decreases k - j
  {
    if j < k {
      PosMonotone(ts, j + 1, k);
    }
  }

  lemma {:induction false} OnesAre(bits: string, pos: nat)
    ensures forall i :: 0 <= i < |bits| ==> (pos + |bits| - 1 - i in Ones(bits, pos) <==> bits[i] == '1')
    ensures forall b :: b in Ones(bits, pos) ==> pos <= b < pos + |bits|
  {
    if bits != [] {
      var rest := bits[1..];
      OnesAre(rest, pos);
      forall i | 0 <= i < |bits| ensures pos + |bits| - 1 - i in Ones(bits, pos) <==> bits[i] == '1' {
        if i > 0 {
          assert bits[i] == rest[i - 1];
          assert pos + |rest| - 1 - (i - 1) == pos + |bits| - 1 - i;
        }
      }
    }
  }

  // ----- What the loop lays out

  lemma LiteralStep(ts: seq<Token>, n: nat, s: Layout, bits: string)
    requires n < |ts| && LaidOut(ts, n + 1, s) && ts[n] == Literal(bits)
    ensures Step(s, ts[n]).Some? && LaidOut(ts, n, Step(s, ts[n]).value)
  {
    var r := Step(s, ts[n]).value;
    OnesAre(bits, s.pos);
    forall b | b in s.base ensures b < s.pos {
      var k :| n + 1 <= k < |ts| && ts[k].Literal? && Covers(ts, k, b);
      PosMonotone(ts, n + 1, k);
    }
    forall k | n <= k < |ts| ensures Placed(ts, k, r) {
      if k > n {
        assert Placed(ts, k, s);
        PosMonotone(ts, n + 1, k);
      }
    }
    forall b | b in r.base ensures exists k :: n <= k < |ts| && ts[k].Literal? && Covers(ts, k, b) {
      if b in s.base {
        var k :| n + 1 <= k < |ts| && ts[k].Literal? && Covers(ts, k, b);
      } else {
        assert Covers(ts, n, b);
      }
    }
    forall name | name in r.fields ensures exists k :: n <= k < |ts| && Names(ts, k, name) {
      var k :| n + 1 <= k < |ts| && Names(ts, k, name);
    }
  }

  lemma FieldStep(ts: seq<Token>, n: nat, s: Layout, name: string, width: nat)
    requires n < |ts| && LaidOut(ts, n + 1, s) && ts[n] == Field(name, width)
    ensures match Step(s, ts[n]) case Some(r) => LaidOut(ts, n, r) case None => !Distinct(ts, n)
  {
    if name in s.fields {
      var k :| n + 1 <= k < |ts| && Names(ts, k, name);
    } else {
      var r := Step(s, ts[n]).value;
      forall k | n <= k < |ts| ensures Placed(ts, k, r) {
        if k > n {
          assert Placed(ts, k, s);
        }
      }
      forall j | n < j < |ts| && ts[j].Field? ensures ts[j].name != name {
        assert Placed(ts, j, s);
      }
      forall b | b in r.base ensures exists k :: n <= k < |ts| && ts[k].Literal? && Covers(ts, k, b) {
        var k :| n + 1 <= k < |ts| && ts[k].Literal? && Covers(ts, k, b);
      }
      forall other | other in r.fields ensures exists k :: n <= k < |ts| && Names(ts, k, other) {
        if other == name {
          assert Names(ts, n, name);
        } else {
          var k :| n + 1 <= k < |ts| && Names(ts, k, other);
        }
      }
    }
  }

  lemma {:induction false} FromLaysOut(toks: seq<Option<Token>>, ts: seq<Token>, n: nat, s: Layout)
    requires Reads(toks, ts) && n <= |ts| && LaidOut(ts, n, s)
    ensures match From(toks, n, s) case Some(r) => LaidOut(ts, 0, r) case None => !Distinct(ts, 0)
  {
    if n > 0 {
      match ts[n - 1] {
        case Literal(bits) => LiteralStep(ts, n - 1, s, bits);
        case Field(name, width) => FieldStep(ts, n - 1, s, name, width);
      }
      match Step(s, ts[n - 1]) {
        case Some(next) => FromLaysOut(toks, ts, n - 1, next);
        case None =>
      }
    }
  }

  lemma {:induction false} UnknownTokenRejects(toks: seq<Option<Token>>, n: nat, s: Layout, i: nat)
    requires i < n <= |toks| && toks[i] == None
    ensures From(toks, n, s) == None
  {
    if i < n - 1 && toks[n - 1].Some? && Step(s, toks[n - 1].value).Some? {
      UnknownTokenRejects(toks, n - 1, Step(s, toks[n - 1].value).value, i);
    }
  }

  /** The string is refused exactly when a token is unknown, a field name repeats, or
      the widths do not add up to 32. */
  lemma ParsedIff(toks: seq<Option<Token>>, ts: seq<Token>)
    ensures (exists i :: 0 <= i < |toks| && toks[i] == None) ==> Parsed(toks) == None
    ensures Reads(toks, ts) ==> (Parsed(toks).Some? <==> Distinct(ts, 0) && Pos(ts, 0) == 32)
  {
    if i :| 0 <= i < |toks| && toks[i] == None {
      UnknownTokenRejects(toks, |toks|, EMPTY_LAYOUT, i);
    }
    if Reads(toks, ts) {
      FromLaysOut(toks, ts, |ts|, EMPTY_LAYOUT);
    }
  }

  /** An accepted string: every literal digit is the bit of the base at its place,
      every field is under its name at its place, and the base holds nothing else. */
  lemma ParsedIs(toks: seq<Option<Token>>, ts: seq<Token>)
    requires Reads(toks, ts) && Parsed(toks).Some?
    ensures var (base, fields) := Parsed(toks).value; LaidOut(ts, 0, Layout(base, fields, 32))
  {
    FromLaysOut(toks, ts, |ts|, EMPTY_LAYOUT);
    var s := From(toks, |toks|, EMPTY_LAYOUT).value;
    forall b | b in s.base ensures b < 32 {
      var k :| 0 <= k < |ts| && ts[k].Literal? && Covers(ts, k, b);
      PosMonotone(ts, 0, k);
    }
    assert Low32(s.base) == s.base;
  }

  // ----- Tiling

  /** Every bit of the word belongs to a token, and to only one. */
  lemma {:induction false} EveryBitHasAToken(ts: seq<Token>, n: nat, b: nat) returns (k: nat)
    requires n <= |ts| && b < Pos(ts, n)
    ensures n <= k < |ts| && Covers(ts, k, b)
    decreases |ts| - n
  {
    if b >= Pos(ts, n + 1) {
      k := n;
    } else {
      k := EveryBitHasAToken(ts, n + 1, b);
    }
  }

  lemma OneTokenABit(ts: seq<Token>, j: nat, k: nat, b: nat)
    requires j < |ts| && k < |ts| && Covers(ts, j, b) && Covers(ts, k, b)
    ensures j == k
  {
    if j < k {
      PosMonotone(ts, j + 1, k);
    } else if k < j {
      PosMonotone(ts, k + 1, j);
    }
  }

  /** Bit `b` belongs to the field `n`. */
  predicate FieldHas(fields: Fields, n: string, b: nat) {
    n in fields && fields[n].1 <= b < fields[n].1 + fields[n].0
  }

  /** The fields lie inside the word, no two share a bit, and the base is zero on all
      of them. */
  ghost predicate Tiled(base: Word, fields: Fields) {
    && (forall b :: b in base ==> b < 32)
    && (forall n, b: nat :: FieldHas(fields, n, b) ==> b < 32 && b !in base)
    && (forall m, n, b: nat :: FieldHas(fields, m, b) && FieldHas(fields, n, b) ==> m == n)
  }

  lemma FieldToken(ts: seq<Token>, s: Layout, name: string, b: nat) returns (k: nat)
    requires LaidOut(ts, 0, s) && FieldHas(s.fields, name, b)
    ensures k < |ts| && Names(ts, k, name) && Covers(ts, k, b)
  {
    k :| 0 <= k < |ts| && Names(ts, k, name);
    assert Placed(ts, k, s);
  }

  lemma FieldBitIsFree(ts: seq<Token>, s: Layout, name: string, b: nat)
    requires LaidOut(ts, 0, s) && s.pos == 32 && FieldHas(s.fields, name, b)
    ensures b < 32 && b !in s.base
  {
    var k := FieldToken(ts, s, name, b);
    PosMonotone(ts, 0, k);
    if b in s.base {
      var j :| 0 <= j < |ts| && ts[j].Literal? && Covers(ts, j, b);
      OneTokenABit(ts, j, k, b);
    }
  }

  lemma LaidOutIsTiled(ts: seq<Token>, s: Layout)
    requires LaidOut(ts, 0, s) && s.pos == 32
    ensures Tiled(s.base, s.fields)
  {
    forall b | b in s.base ensures b < 32 {
      var k :| 0 <= k < |ts| && ts[k].Literal? && Covers(ts, k, b);
      PosMonotone(ts, 0, k);
    }
    forall n, b: nat | FieldHas(s.fields, n, b) ensures b < 32 && b !in s.base {
      FieldBitIsFree(ts, s, n, b);
    }
    forall m, n, b: nat | FieldHas(s.fields, m, b) && FieldHas(s.fields, n, b)
      ensures m == n
    {
      var j := FieldToken(ts, s, m, b);
      var k := FieldToken(ts, s, n, b);
      OneTokenABit(ts, j, k, b);
    }
  }

  /** The bits no field covers are exactly the bits of the literal tokens. */
  lemma LiteralsAreTheRest(ts: seq<Token>, s: Layout, b: nat)
    requires LaidOut(ts, 0, s) && s.pos == 32 && b < 32
    ensures (exists k :: 0 <= k < |ts| && ts[k].Literal? && Covers(ts, k, b)) <==> Fixed(s.fields, b)
  {
    var k := EveryBitHasAToken(ts, 0, b);
    assert Placed(ts, k, s);
    if ts[k].Field? {
      assert FieldHas(s.fields, ts[k].name, b);
      forall j | 0 <= j < |ts| && Covers(ts, j, b) ensures ts[j].Field? {
        OneTokenABit(ts, j, k, b);
      }
    } else {
      forall n ensures !FieldHas(s.fields, n, b) {
        if FieldHas(s.fields, n, b) {
          var j := FieldToken(ts, s, n, b);
          OneTokenABit(ts, j, k, b);
        }
      }
    }
  }

  ghost predicate Fixed(fields: Fields, b: nat) { forall n :: !FieldHas(fields, n, b) }

  // ----- Splicing and extracting

  predicate Bit(word: Word, shift: nat, j: nat) { shift + j in word }

  function Extract(word: Word, f: (nat, nat)): Word { set j: nat | j < f.0 && Bit(word, f.1, j) }

  /** A value for every field, each within its width. */
  ghost predicate Fits(fields: Fields, values: map<string, Word>) {
    values.Keys == fields.Keys && forall n, j: nat :: n in fields && j in values[n] ==> j < fields[n].0
  }

  ghost predicate Carries(fields: Fields, values: map<string, Word>, n: string, b: nat) {
    n in fields && n in values && fields[n].1 <= b && b - fields[n].1 in values[n]
  }

  ghost predicate Carried(fields: Fields, values: map<string, Word>, b: nat) {
    exists n :: Carries(fields, values, n, b)
  }

  ghost function Splice(base: Word, fields: Fields, values: map<string, Word>): Word {
    base + set b: nat | b < 32 && Carried(fields, values, b)
  }

  /** Extracting a field of a spliced word gives the value spliced in. */
  lemma ExtractSplice(base: Word, fields: Fields, values: map<string, Word>, name: string)
    requires Tiled(base, fields) && Fits(fields, values) && name in fields
    ensures Extract(Splice(base, fields, values), fields[name]) == values[name]
  {
    var f, word := fields[name], Splice(base, fields, values);
    forall j: nat ensures j in Extract(word, f) <==> j in values[name] {
      if j < f.0 {
        var b := f.1 + j;
        assert FieldHas(fields, name, b);
        if j in values[name] {
          assert Carries(fields, values, name, b);
        }
        if b in word {
          var n :| Carries(fields, values, n, b);
          assert FieldHas(fields, n, b);
        }
        assert Bit(word, f.1, j) <==> b in word;
      }
    }
  }

  /** Distinct assignments give distinct words. */
  lemma SpliceInjective(base: Word, fields: Fields, v: map<string, Word>, w: map<string, Word>)
    requires Tiled(base, fields) && Fits(fields, v) && Fits(fields, w)
    requires Splice(base, fields, v) == Splice(base, fields, w)
    ensures v == w
  {
    forall name | name in fields ensures v[name] == w[name] {
      ExtractSplice(base, fields, v, name);
      ExtractSplice(base, fields, w, name);
    }
  }

  /** The word has the encoding's literal bits. */
  ghost predicate Matches(base: Word, fields: Fields, word: Word) {
    && (forall b :: b in word ==> b < 32)
    && forall b: nat :: b < 32 && Fixed(fields, b) ==> (b in word <==> b in base)
  }

  function ExtractAll(word: Word, fields: Fields): map<string, Word> {
    map n | n in fields :: Extract(word, fields[n])
  }

  lemma SplicedMatches(base: Word, fields: Fields, values: map<string, Word>)
    requires Tiled(base, fields) && Fits(fields, values)
    ensures Matches(base, fields, Splice(base, fields, values))
  {
    var word := Splice(base, fields, values);
    forall b: nat | b < 32 && Fixed(fields, b) ensures b in word <==> b in base {
      if b in word && b !in base {
        var n :| Carries(fields, values, n, b);
        assert FieldHas(fields, n, b);
      }
    }
  }

  /** Splicing back what was extracted rebuilds every word with the literal bits. */
  lemma SpliceExtract(base: Word, fields: Fields, word: Word)
    requires Tiled(base, fields) && Matches(base, fields, word)
    ensures Fits(fields, ExtractAll(word, fields))
    ensures Splice(base, fields, ExtractAll(word, fields)) == word
  {
    var values := ExtractAll(word, fields);
    forall b: nat ensures b in Splice(base, fields, values) <==> b in word {
      if b < 32 && !Fixed(fields, b) {
        var n :| FieldHas(fields, n, b);
        assert Bit(word, fields[n].1, b - fields[n].1) <==> b in word;
        assert Carries(fields, values, n, b) <==> b in word;
        forall m | Carries(fields, values, m, b) ensures m == n {
          assert FieldHas(fields, m, b);
        }
      } else if b < 32 {
        forall m ensures !Carries(fields, values, m, b) {
          if Carries(fields, values, m, b) {
            assert FieldHas(fields, m, b);
          }
        }
      }
    }
  }

  /** For every accepted encoding string, the words with its literal bits and the
      assignments to its fields are in one-to-one correspondence. */
  lemma EncodingIsABijection(op: string, word: Word, values: map<string, Word>)
    requires Parse(op).Some?
    ensures var (base, fields) := Parse(op).value;
      && Tiled(base, fields)
      && (Fits(fields, values) ==>
            && Matches(base, fields, Splice(base, fields, values))
            && ExtractAll(Splice(base, fields, values), fields) == values)
      && (Matches(base, fields, word) ==>
            && Fits(fields, ExtractAll(word, fields))
            && Splice(base, fields, ExtractAll(word, fields)) == word)
  {
    var toks := Tokens(Split(op, '|'));
    var (base, fields) := Parsed(toks).value;
    var ts := Understood(toks);
    ParsedIs(toks, ts);
    LaidOutIsTiled(ts, Layout(base, fields, 32));
    if Fits(fields, values) {
      SplicedMatches(base, fields, values);
      forall name | name in fields ensures Extract(Splice(base, fields, values), fields[name]) == values[name] {
        ExtractSplice(base, fields, values, name);
      }
    }
    if Matches(base, fields, word) {
      SpliceExtract(base, fields, word);
    }
  }

  /** An accepted string has only known tokens. */
  lemma Understood(toks: seq<Option<Token>>) returns (ts: seq<Token>)
    requires Parsed(toks).Some?
    ensures Reads(toks, ts)
  {
    ParsedIff(toks, []);
    ts := Known(toks);
  }

  function Known(toks: seq<Option<Token>>): (ts: seq<Token>)
    requires forall i :: 0 <= i < |toks| ==> toks[i] != None
    ensures Reads(toks, ts)
  {
    if toks == [] then [] else [toks[0].value] + Known(toks[1..])
  }
}
