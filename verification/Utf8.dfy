/** The UTF-8 automaton accepts exactly the encodings of Unicode scalar values (RFC 3629 section 3). */
module Utf8Scalars {
  import opened Prelude
  import opened JsonTexts

  /** A code point that is not a surrogate. */
  predicate Scalar(c: nat) {
    c < 0x11_0000 && !(0xD800 <= c < 0xE000)
  }

  predicate Scalars(cs: seq<nat>) {
    forall i | 0 <= i < |cs| :: Scalar(cs[i])
  }

  function EncodeAll(cs: seq<nat>): bytes
    requires Scalars(cs)
  {
    if cs == [] then [] else Utf8Encode(cs[0]) + EncodeAll(cs[1..])
  }

  // ── Encodings are accepted ─────────────────────────────────────────────

  lemma Run2(q: Utf8State, a: byte, b: byte)
    ensures Utf8Run(q, [a, b]) == Utf8Step(Utf8Step(q, a), b)
  {
    hide Utf8Step;
    assert [a, b][1..] == [b] && [b][1..] == [];
    assert Utf8Run(Utf8Step(q, a), [b]) == Utf8Run(Utf8Step(Utf8Step(q, a), b), []);
  }

  lemma Run3(q: Utf8State, a: byte, b: byte, c: byte)
    ensures Utf8Run(q, [a, b, c]) == Utf8Step(Utf8Step(Utf8Step(q, a), b), c)
  {
    hide Utf8Step;
    assert [a, b, c][1..] == [b, c];
    Run2(Utf8Step(q, a), b, c);
  }

  lemma Run4(q: Utf8State, a: byte, b: byte, c: byte, d: byte)
    ensures Utf8Run(q, [a, b, c, d]) == Utf8Step(Utf8Step(Utf8Step(Utf8Step(q, a), b), c), d)
  {
    hide Utf8Step;
    assert [a, b, c, d][1..] == [b, c, d];
    Run3(Utf8Step(q, a), b, c, d);
  }

  lemma EncodedIsValid(c: nat)
    requires Scalar(c)
    ensures ValidUtf8(Utf8Encode(c))
  {
    hide Utf8Run;
    if c < 0x80 {
      OneByte(c);
    } else if c < 0x800 {
      Run2(Ready, 0xC0 + c / 64, 0x80 + c % 64);
    } else if c < 0x1_0000 {
      Run3(Ready, 0xE0 + c / 4096, 0x80 + c / 64 % 64, 0x80 + c % 64);
      ThreeBytes(c);
    } else {
      Run4(Ready, 0xF0 + c / 262144, 0x80 + c / 4096 % 64, 0x80 + c / 64 % 64, 0x80 + c % 64);
      FourBytes(c);
    }
  }

  lemma OneByte(c: byte)
    requires c < 0x80
    ensures Utf8Run(Ready, [c]) == Ready
  {
  }

  lemma ThreeBytes(c: nat)
    requires 0x800 <= c < 0x1_0000
    ensures c / 4096 == 0 ==> c / 64 % 64 >= 32
    ensures c / 4096 == 13 && c < 0xD800 ==> c / 64 % 64 < 32
    ensures c / 4096 == 13 && c >= 0xE000 ==> false
    ensures c / 4096 < 16
  {
  }

  lemma FourBytes(c: nat)
    requires 0x1_0000 <= c < 0x11_0000
    ensures c / 262144 <= 4 && (c / 262144 == 0 ==> c / 4096 % 64 >= 16) && (c / 262144 == 4 ==> c / 4096 % 64 < 16)
  {
  }

  // ── Nothing else is ────────────────────────────────────────────────────

  lemma Unfold(q: Utf8State, s: bytes)
    requires s != []
    ensures Utf8Run(q, s) == Utf8Run(Utf8Step(q, s[0]), s[1..])
  {
  }

  lemma {:induction false} BrokenStays(s: bytes)
    ensures Utf8Run(Broken, s) == Broken
    decreases |s|
  {
    if s != [] {
      BrokenStays(s[1..]);
    }
  }

  /** A valid text that is not empty begins with the encoding of a scalar, and goes on valid. */
  lemma FirstScalar(s: bytes) returns (c: nat)
    requires s != [] && ValidUtf8(s)
    ensures Scalar(c) && Utf8Encode(c) <= s && ValidUtf8(s[|Utf8Encode(c)|..])
  {
    hide Utf8Run;
    var a: int := s[0];
    Unfold(Ready, s);
    BrokenStays(s[1..]);
    Nothing();
    if a < 0x80 {
      return a;
    }
    Unfold(Utf8Lead(a), s[1..]);
    BrokenStays(s[2..]);
    var b: int := s[1];
    assert s[1..][1..] == s[2..];
    if a < 0xE0 {
      c := (a - 0xC0) * 64 + (b - 0x80);
      assert s[..2] == [a, b];
      return;
    }
    Unfold(Utf8Step(Utf8Lead(a), b), s[2..]);
    BrokenStays(s[3..]);
    var d: int := s[2];
    assert s[2..][1..] == s[3..];
    if a < 0xF0 {
      c := (a - 0xE0) * 4096 + (b - 0x80) * 64 + (d - 0x80);
      ThreeParts(a - 0xE0, b - 0x80, d - 0x80);
      assert s[..3] == [a, b, d];
      return;
    }
    Unfold(Utf8Step(Utf8Step(Utf8Lead(a), b), d), s[3..]);
    BrokenStays(s[4..]);
    var e: int := s[3];
    assert s[3..][1..] == s[4..];
    c := (a - 0xF0) * 262144 + (b - 0x80) * 4096 + (d - 0x80) * 64 + (e - 0x80);
    FourParts(a - 0xF0, b - 0x80, d - 0x80, e - 0x80);
    assert s[..4] == [a, b, d, e];
  }

  lemma Nothing()
    ensures forall q :: Utf8Run(q, []) == q
  {
  }

  lemma ThreeParts(a: nat, b: nat, d: nat)
    requires b < 64 && d < 64
    ensures var c := a * 4096 + b * 64 + d; c / 4096 == a && c / 64 % 64 == b && c % 64 == d
  {
    var c := a * 4096 + b * 64 + d;
    assert c / 64 == a * 64 + b;
  }

  lemma FourParts(a: nat, b: nat, d: nat, e: nat)
    requires b < 64 && d < 64 && e < 64
    ensures var c := a * 262144 + b * 4096 + d * 64 + e; c / 262144 == a && c / 4096 % 64 == b && c / 64 % 64 == d && c % 64 == e
  {
    var c := a * 262144 + b * 4096 + d * 64 + e;
    assert c / 64 == a * 4096 + b * 64 + d;
    assert c / 4096 == a * 64 + b;
  }

  /** Main result: a text is UTF-8 exactly if it is the encoding of a sequence of scalar values. */
  lemma {:induction false} Utf8Exact(s: bytes)
    ensures ValidUtf8(s) <==> exists cs: seq<nat> :: Scalars(cs) && EncodeAll(cs) == s
  {
    hide Utf8Run, Utf8Encode;
    if ValidUtf8(s) {
      var cs := DecodedAll(s);
    }
    forall cs: seq<nat> | Scalars(cs) && EncodeAll(cs) == s
      ensures ValidUtf8(s)
    {
      EncodedAll(cs);
    }
  }

  lemma {:induction false} DecodedAll(s: bytes) returns (cs: seq<nat>)
    requires ValidUtf8(s)
    ensures Scalars(cs) && EncodeAll(cs) == s
    decreases |s|
  {
    hide Utf8Run;
    if s == [] {
      cs := [];
    } else {
      var c := FirstScalar(s);
      var rest := DecodedAll(s[|Utf8Encode(c)|..]);
      cs := [c] + rest;
      assert cs[1..] == rest;
    }
  }

  lemma {:induction false} EncodedAll(cs: seq<nat>)
    requires Scalars(cs)
    ensures ValidUtf8(EncodeAll(cs))
  {
    hide Utf8Run, Utf8Encode;
    if cs == [] {
      Nothing();
    } else {
      EncodedIsValid(cs[0]);
      EncodedAll(cs[1..]);
      Utf8Concat(Ready, Utf8Encode(cs[0]), EncodeAll(cs[1..]));
    }
  }
}
