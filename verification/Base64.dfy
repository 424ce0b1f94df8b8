/** The base64 decoder of `demos/bzip2/smoke_main.c`, against the encoding of
    section 4 of RFC 4648. Sextets and bytes are numbers; `ShiftsAreArithmetic` ties
    the shifts and ors of the code to the sums used here. */
module Base64 {
  import opened Text

  predicate Bytes(bs: seq<int>) { forall i :: 0 <= i < |bs| ==> 0 <= bs[i] < 256 }

  predicate SextetsOnly(vs: seq<int>) { forall i :: 0 <= i < |vs| ==> 0 <= vs[i] < 64 }

  // ----- Characters

  /** `b64_value` */
  function Value(c: char): int {
    if 'A' <= c <= 'Z' then c as int - 'A' as int
    else if 'a' <= c <= 'z' then c as int - 'a' as int + 26
    else if '0' <= c <= '9' then c as int - '0' as int + 52
    else if c == '+' then 62
    else if c == '/' then 63
    else -1
  }

  /** Table 1 of RFC 4648. */
  function Letter(v: int): char
    requires 0 <= v < 64
  {
    if v < 26 then ('A' as int + v) as char
    else if v < 52 then ('a' as int + (v - 26)) as char
    else if v < 62 then ('0' as int + (v - 52)) as char
    else if v == 62 then '+'
    else '/'
  }

  predicate InAlphabet(c: char) { Value(c) >= 0 }

  predicate Stops(c: char) { c == '=' || c == '\0' }

  /** A character the loop skips. */
  predicate Junk(c: char) { !InAlphabet(c) && !Stops(c) }

  /** `b64_value` inverts the table, and knows no other character. */
  lemma ValueInvertsTable(v: int, c: char)
    requires 0 <= v < 64
    ensures Letter(v) == c <==> Value(c) == v
    ensures !Stops(Letter(v))
  {
  }

  // ----- Groups

  /** The three bytes of a full group, as the code writes them. */
  function First(a: int, b: int): int { a * 4 + b / 16 }
  function Second(b: int, c: int): int { b % 16 * 16 + c / 4 }
  function Third(c: int, d: int): int { c % 4 * 64 + d }

  /** The shifts and ors of the code, truncated to `unsigned char`. */
  lemma ShiftsAreArithmetic(a: bv8, b: bv8)
    requires a < 64 && b < 64
    ensures (a << 2) | (b >> 4) == a * 4 + b / 16
    ensures (a << 4) | (b >> 2) == a % 16 * 16 + b / 4
    ensures (a << 6) | b == a % 4 * 64 + b
  {
  }

  function Decode(vs: seq<int>): seq<int> {
    if |vs| >= 4 then [First(vs[0], vs[1]), Second(vs[1], vs[2]), Third(vs[2], vs[3])] + Decode(vs[4..])
    else if |vs| == 3 then [First(vs[0], vs[1]), Second(vs[1], vs[2])]
    else if |vs| == 2 then [First(vs[0], vs[1])]
    else []
  }

  /** The sextets before the first `=` or the end of the string. */
  function Sextets(src: string): seq<int> {
    if src == [] || Stops(src[0]) then []
    else (if InAlphabet(src[0]) then [Value(src[0])] else []) + Sextets(src[1..])
  }

  lemma {:induction false} SextetsAreSextets(src: string)
    ensures SextetsOnly(Sextets(src)) && |Sextets(src)| <= |src|
  {
    if src != [] && !Stops(src[0]) {
      SextetsAreSextets(src[1..]);
    }
  }

  /** Four characters make three bytes, and nothing is lost or added at the end. */
  lemma {:induction false} DecodeLength(vs: seq<int>)
    ensures |Decode(vs)| == 3 * |vs| / 4
    ensures SextetsOnly(vs) ==> Bytes(Decode(vs))
  {
    if |vs| >= 4 {
      DecodeLength(vs[4..]);
    }
  }

  // ----- The encoding

  /** Section 4 of RFC 4648, before padding: 24 bits at a time, zero bits added to a
      final group of one or two bytes. */
  function ToSextets(bs: seq<int>): seq<int> {
    if |bs| >= 3 then
      [bs[0] / 4, bs[0] % 4 * 16 + bs[1] / 16, bs[1] % 16 * 4 + bs[2] / 64, bs[2] % 64] + ToSextets(bs[3..])
    else if |bs| == 2 then [bs[0] / 4, bs[0] % 4 * 16 + bs[1] / 16, bs[1] % 16 * 4]
    else if |bs| == 1 then [bs[0] / 4, bs[0] % 4 * 16]
    else []
  }

  lemma {:induction false} ToSextetsAreSextets(bs: seq<int>)
    requires Bytes(bs)
    ensures SextetsOnly(ToSextets(bs))
  {
    if |bs| >= 3 {
      ToSextetsAreSextets(bs[3..]);
    }
  }

  function Spell(vs: seq<int>): string
    requires SextetsOnly(vs)
  {
    if vs == [] then [] else [Letter(vs[0])] + Spell(vs[1..])
  }

  function Padding(bs: seq<int>): string {
    if |bs| % 3 == 1 then "==" else if |bs| % 3 == 2 then "=" else ""
  }

  function Encode(bs: seq<int>): string
    requires Bytes(bs)
  {
    ToSextetsAreSextets(bs);
    Spell(ToSextets(bs)) + Padding(bs)
  }

  /** Reading back what was spelled, whatever stands behind a padding character. */
  lemma {:induction false} SpellRoundTrip(vs: seq<int>, rest: string)
    requires SextetsOnly(vs) && (rest == [] || Stops(rest[0]))
    ensures Sextets(Spell(vs) + rest) == vs
  {
    if vs == [] {
      assert Spell(vs) + rest == rest;
    } else {
      var c, tail := Letter(vs[0]), Spell(vs[1..]) + rest;
      ValueInvertsTable(vs[0], c);
      SpellRoundTrip(vs[1..], rest);
      assert Spell(vs) + rest == [c] + tail;
      assert ([c] + tail)[1..] == tail;
    }
  }

  lemma GroupRoundTrip(x: int, y: int, z: int)
    requires 0 <= x < 256 && 0 <= y < 256 && 0 <= z < 256
    ensures First(x / 4, x % 4 * 16 + y / 16) == x
    ensures Second(x % 4 * 16 + y / 16, y % 16 * 4 + z / 64) == y
    ensures Third(y % 16 * 4 + z / 64, z % 64) == z
  {
  }

  lemma FirstGroupRoundTrip(bs: seq<int>, rest: seq<int>)
    requires Bytes(bs) && |bs| >= 3 && Decode(rest) == bs[3..]
    ensures Decode([bs[0] / 4, bs[0] % 4 * 16 + bs[1] / 16, bs[1] % 16 * 4 + bs[2] / 64, bs[2] % 64] + rest) == bs
  {
    var group := [bs[0] / 4, bs[0] % 4 * 16 + bs[1] / 16, bs[1] % 16 * 4 + bs[2] / 64, bs[2] % 64];
    GroupRoundTrip(bs[0], bs[1], bs[2]);
    assert (group + rest)[4..] == rest;
    assert bs == [bs[0], bs[1], bs[2]] + bs[3..];
  }

  lemma {:induction false} SextetRoundTrip(bs: seq<int>)
    requires Bytes(bs)
    ensures Decode(ToSextets(bs)) == bs
  {
    if |bs| >= 3 {
      SextetRoundTrip(bs[3..]);
      FirstGroupRoundTrip(bs, ToSextets(bs[3..]));
    } else if |bs| == 2 {
      GroupRoundTrip(bs[0], bs[1], 0);
    } else if |bs| == 1 {
      GroupRoundTrip(bs[0], 0, 0);
    }
  }

  /** Decoding inverts encoding, for every byte string. */
  lemma RoundTrip(bs: seq<int>)
    requires Bytes(bs)
    ensures Decode(Sextets(Encode(bs))) == bs
  {
    ToSextetsAreSextets(bs);
    SpellRoundTrip(ToSextets(bs), Padding(bs));
    SextetRoundTrip(bs);
  }

  /** The unused low bits of a short last group are zero, and it is not a lone
      sextet: the sextets some byte string encodes to. */
  predicate Canonical(vs: seq<int>) {
    if |vs| >= 4 then Canonical(vs[4..])
    else if |vs| == 3 then vs[2] % 4 == 0
    else if |vs| == 2 then vs[1] % 16 == 0
    else vs == []
  }

  lemma GroupBack(a: int, b: int, c: int, d: int)
    requires 0 <= a < 64 && 0 <= b < 64 && 0 <= c < 64 && 0 <= d < 64
    ensures First(a, b) / 4 == a
    ensures First(a, b) % 4 * 16 + Second(b, c) / 16 == b
    ensures Second(b, c) % 16 * 4 + Third(c, d) / 64 == c
    ensures Third(c, d) % 64 == d
    ensures First(a, b) % 4 * 16 == b - b % 16
    ensures Second(b, c) % 16 * 4 == c - c % 4
  {
  }

  lemma FirstGroupBack(vs: seq<int>, rest: seq<int>)
    requires SextetsOnly(vs) && |vs| >= 4
    ensures ToSextets([First(vs[0], vs[1]), Second(vs[1], vs[2]), Third(vs[2], vs[3])] + rest)
         == vs[..4] + ToSextets(rest)
  {
    var bs := [First(vs[0], vs[1]), Second(vs[1], vs[2]), Third(vs[2], vs[3])] + rest;
    GroupBack(vs[0], vs[1], vs[2], vs[3]);
    assert bs[3..] == rest;
  }

  /** Re-encoding what was decoded gives the same sextets exactly for the canonical
      ones: everything else is decoded too, to what a canonical spelling gives. */
  lemma {:induction false} ReencodeIff(vs: seq<int>)
    requires SextetsOnly(vs)
    ensures ToSextets(Decode(vs)) == vs <==> Canonical(vs)
  {
    if |vs| >= 4 {
      ReencodeIff(vs[4..]);
      FirstGroupBack(vs, Decode(vs[4..]));
      assert vs == vs[..4] + vs[4..];
      assert (vs[..4] + ToSextets(Decode(vs[4..])))[4..] == ToSextets(Decode(vs[4..]));
    } else if |vs| == 3 {
      GroupBack(vs[0], vs[1], vs[2], 0);
    } else if |vs| == 2 {
      GroupBack(vs[0], vs[1], 0, 0);
    }
  }

  // ----- What is skipped

  function WithoutJunk(src: string): string {
    if src == [] then [] else (if Junk(src[0]) then [] else [src[0]]) + WithoutJunk(src[1..])
  }

  lemma {:induction false} JunkIsSkipped(src: string)
    ensures Sextets(WithoutJunk(src)) == Sextets(src)
  {
    if src != [] {
      var rest := WithoutJunk(src[1..]);
      JunkIsSkipped(src[1..]);
      if Junk(src[0]) {
        assert WithoutJunk(src) == rest && Sextets(src) == Sextets(src[1..]);
      } else {
        assert ([src[0]] + rest)[1..] == rest;
      }
    }
  }

  lemma {:induction false} WithoutJunkAppend(a: string, b: string)
    ensures WithoutJunk(a + b) == WithoutJunk(a) + WithoutJunk(b)
  {
    if a == [] {
      assert a + b == b;
    } else {
      assert (a + b)[1..] == a[1..] + b;
      WithoutJunkAppend(a[1..], b);
    }
  }

  lemma {:induction false} JunkVanishes(junk: string)
    requires forall i :: 0 <= i < |junk| ==> Junk(junk[i])
    ensures WithoutJunk(junk) == []
  {
    if junk != [] {
      JunkVanishes(junk[1..]);
    }
  }

  /** Junk inserted anywhere changes nothing. */
  lemma InsertedJunkIsHarmless(a: string, junk: string, b: string)
    requires forall i :: 0 <= i < |junk| ==> Junk(junk[i])
    ensures Sextets(a + junk + b) == Sextets(a + b)
  {
    WithoutJunkAppend(a + junk, b);
    WithoutJunkAppend(a, junk);
    WithoutJunkAppend(a, b);
    JunkVanishes(junk);
    assert WithoutJunk(a) + [] == WithoutJunk(a);
    JunkIsSkipped(a + junk + b);
    JunkIsSkipped(a + b);
  }

  /** Any text that is an encoding once its junk is taken out decodes to the bytes
      encoded. */
  lemma NoisyRoundTrip(bs: seq<int>, noisy: string)
    requires Bytes(bs) && WithoutJunk(noisy) == Encode(bs)
    ensures Decode(Sextets(noisy)) == bs
  {
    JunkIsSkipped(noisy);
    RoundTrip(bs);
  }

  /** The header comment promises 0 for malformed input; 0 is returned exactly when
      there are fewer than two characters to decode. */
  lemma ZeroIff(src: string)
    ensures |Decode(Sextets(src))| == 0 <==> |Sextets(src)| < 2
  {
    DecodeLength(Sextets(src));
  }

  /** `strlen(src)` */
  function StrLen(src: string): nat { Find(src, '\0') }

  lemma {:induction false} SextetsWithinString(src: string)
    ensures |Sextets(src)| <= StrLen(src)
  {
    if src != [] && !Stops(src[0]) {
      SextetsWithinString(src[1..]);
    }
  }

  /** The destination size the header comment asks for, `strlen / 4 * 3`, is enough
      exactly when the text is not all but a short last group of alphabet characters. */
  lemma DocumentedSizeIff(src: string)
    ensures |Decode(Sextets(src))| <= StrLen(src) / 4 * 3 <==>
      |Sextets(src)| / 4 < StrLen(src) / 4 || |Sextets(src)| % 4 < 2
  {
    DecodeLength(Sextets(src));
    SextetsWithinString(src);
  }

  /** A text whose length is a multiple of four is always safe. */
  lemma WholeGroupsAreSafe(src: string)
    requires StrLen(src) % 4 == 0
    ensures |Decode(Sextets(src))| <= StrLen(src) / 4 * 3
  {
    DecodeLength(Sextets(src));
    SextetsWithinString(src);
  }

  // ----- The loop

  lemma {:induction false} DecodeAppend(vs: seq<int>, ws: seq<int>)
    requires |vs| % 4 == 0
    ensures Decode(vs + ws) == Decode(vs) + Decode(ws)
  {
    if vs == [] {
      assert vs + ws == ws;
    } else {
      assert (vs + ws)[4..] == vs[4..] + ws;
      DecodeAppend(vs[4..], ws);
    }
  }

  /** One character of the text, taken in or skipped. */
  lemma OneMore(src: string, i: nat)
    requires i < |src| && !Stops(src[i])
    ensures Sextets(src[i..]) == (if InAlphabet(src[i]) then [Value(src[i])] else []) + Sextets(src[i + 1..])
  {
    assert src[i..][1..] == src[i + 1..];
  }

  /** Nothing from index `n` on has changed. */
  ghost predicate Untouched(before: seq<int>, after: seq<int>, n: nat) {
    |before| == |after| && forall i :: n <= i < |after| ==> after[i] == before[i]
  }

  /** `dst[outLen++] = ..` for each of `more`. */
  method Store(dst: array<int>, outLen: nat, more: seq<int>) returns (next: nat)
    requires outLen + |more| <= dst.Length
    modifies dst
    ensures next == outLen + |more| && dst[..next] == old(dst[..outLen]) + more
    ensures Untouched(old(dst[..]), dst[..], next)
  {
    next := outLen;
    while next < outLen + |more|
      invariant outLen <= next <= outLen + |more|
      invariant dst[..next] == old(dst[..outLen]) + more[..next - outLen]
      invariant dst[next..] == old(dst[next..])
    {
      dst[next] := more[next - outLen];
      next := next + 1;
    }
  }

  /** The state of the loop: `done` full groups written, `v` waiting. */
  ghost predicate Decoding(all: seq<int>, done: seq<int>, waiting: seq<int>, rest: seq<int>, written: seq<int>) {
    |done| % 4 == 0 && |waiting| < 4 && all == done + waiting + rest && written == Decode(done)
  }

  lemma Take(all: seq<int>, done: seq<int>, waiting: seq<int>, v: int, rest: seq<int>, written: seq<int>)
    requires Decoding(all, done, waiting, [v] + rest, written) && |waiting| < 3
    ensures Decoding(all, done, waiting + [v], rest, written)
  {
  }

  lemma TakeFourth(all: seq<int>, done: seq<int>, waiting: seq<int>, v: int, rest: seq<int>, written: seq<int>)
    requires Decoding(all, done, waiting, [v] + rest, written) && |waiting| == 3
    ensures Decoding(all, done + waiting + [v], [], rest,
      written + [First(waiting[0], waiting[1]), Second(waiting[1], waiting[2]), Third(waiting[2], v)])
  {
    var group := waiting + [v];
    DecodeAppend(done, group);
    assert Decode(group) == [First(group[0], group[1]), Second(group[1], group[2]), Third(group[2], group[3])]
        + Decode(group[4..]);
    assert done + waiting + [v] == done + group;
  }

  /** The room a full group needs is there. */
  lemma RoomFor(all: seq<int>, done: seq<int>, waiting: seq<int>, rest: seq<int>, written: seq<int>)
    requires Decoding(all, done, waiting, rest, written)
    ensures |written| == 3 * |done| / 4
    ensures |waiting| == 3 && rest != [] ==> |written| + 3 <= 3 * |all| / 4
    ensures rest == [] ==> written + Decode(waiting) == Decode(all) && |Decode(all)| == 3 * |all| / 4
  {
    DecodeLength(done);
    if rest == [] {
      assert all == done + waiting;
      DecodeAppend(done, waiting);
      DecodeLength(all);
    }
  }

  /** One alphabet character: kept, or completing a group that is written out. */
  method TakeIn(dst: array<int>, outLen: nat, v: seq<int>, val: int,
                ghost all: seq<int>, ghost done: seq<int>, ghost rest: seq<int>)
    returns (next: nat, kept: seq<int>, ghost grown: seq<int>)
    requires outLen <= dst.Length && dst.Length >= 3 * |all| / 4
    requires Decoding(all, done, v, [val] + rest, dst[..outLen])
    modifies dst
    ensures outLen <= next <= dst.Length && Decoding(all, grown, kept, rest, dst[..next])
    ensures Untouched(old(dst[..]), dst[..], next)
  {
    if |v| < 3 {
      Take(all, done, v, val, rest, dst[..outLen]);
      next, kept, grown := outLen, v + [val], done;
    } else {
      RoomFor(all, done, v, [val] + rest, dst[..outLen]);
      TakeFourth(all, done, v, val, rest, dst[..outLen]);
      next := Store(dst, outLen, [First(v[0], v[1]), Second(v[1], v[2]), Third(v[2], val)]);
      kept, grown := [], done + v + [val];
    }
  }

  /** The tail: two characters left give a byte, three give two. */
  method Finish(dst: array<int>, outLen: nat, v: seq<int>, ghost all: seq<int>, ghost done: seq<int>)
    returns (next: nat)
    requires outLen <= dst.Length && dst.Length >= 3 * |all| / 4
    requires Decoding(all, done, v, [], dst[..outLen])
    modifies dst
    ensures outLen <= next <= dst.Length && dst[..next] == Decode(all) && next == 3 * |all| / 4
    ensures Untouched(old(dst[..]), dst[..], next)
  {
    RoomFor(all, done, v, [], dst[..outLen]);
    next := outLen;
    if |v| == 2 {
      next := Store(dst, outLen, [First(v[0], v[1])]);
    } else if |v| == 3 {
      next := Store(dst, outLen, [First(v[0], v[1]), Second(v[1], v[2])]);
    }
  }

  /** `base64_decode`; `src` is the string up to its terminator, or beyond. The room
      it asks for is exactly what it writes. */
  method Base64Decode(src: string, dst: array<int>) returns (outLen: nat)
    requires dst.Length >= 3 * |Sextets(src)| / 4
    modifies dst
    ensures outLen <= dst.Length && dst[..outLen] == Decode(Sextets(src))
    ensures outLen == 3 * |Sextets(src)| / 4
    ensures Untouched(old(dst[..]), dst[..], outLen)
  {
    ghost var all, done := Sextets(src), [];
    var v: seq<int> := [];
    outLen := 0;
    var i := 0;
    assert src[0..] == src;
    while i < |src| && src[i] != '\0'
      invariant 0 <= i <= |src| && outLen <= dst.Length
      invariant Decoding(all, done, v, Sextets(src[i..]), dst[..outLen])
      invariant Untouched(old(dst[..]), dst[..], outLen)
    {
      var c := src[i];
      if c == '=' {
        break;
      }
      OneMore(src, i);
      var val := Value(c);
      i := i + 1;
      if val < 0 {
        continue;
      }
      outLen, v, done := TakeIn(dst, outLen, v, val, all, done, Sextets(src[i..]));
    }
    outLen := Finish(dst, outLen, v, all, done);
  }
}
