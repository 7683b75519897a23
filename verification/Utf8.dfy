/** The C port's UTF-8 validator against the encoding of section 3 of RFC 3629. */
module Utf8 {
  import opened Text
  import opened Basics

  /** Unicode scalar values: code points that are not surrogates. */
  type Scalar = v: int | 0 <= v < 0xD800 || 0xE000 <= v < 0x11_0000

  function Encode(v: Scalar): (s: seq<byte>)
    ensures 1 <= |s| <= 4
  {
    if v < 0x80 then [v]
    else if v < 0x800 then [0xC0 + v / 0x40, 0x80 + v % 0x40]
    else if v < 0x1_0000 then [0xE0 + v / 0x1000, 0x80 + v / 0x40 % 0x40, 0x80 + v % 0x40]
    else [0xF0 + v / 0x4_0000, 0x80 + v / 0x1000 % 0x40, 0x80 + v / 0x40 % 0x40, 0x80 + v % 0x40]
  }

  function EncodeAll(vs: seq<Scalar>): seq<byte> {
    if vs == [] then [] else Encode(vs[0]) + EncodeAll(vs[1..])
  }

  /** Some sequence of scalar values encodes to exactly these bytes. */
  ghost predicate WellFormed(s: seq<byte>) {
    exists vs: seq<Scalar> :: EncodeAll(vs) == s
  }

  // ----- Reading one sequence -----

  /** The low bits of a byte, as a number. */
  function Low(b: byte, m: nat): nat
    requires m > 0
  {
    (b as int) % m
  }

  predicate IsContinuation(b: byte) {
    (b as int) / 0x40 == 2
  }

  /** What a lead byte says: how many bytes follow, its own payload, and the least value that needs them. */
  function Lead(first: byte): Option<(nat, nat, nat)> {
    if first < 0x80 then Some((0, first, 0))
    else if 0xC2 <= first <= 0xDF then Some((1, Low(first, 0x20), 0x80))
    else if 0xE0 <= first <= 0xEF then Some((2, Low(first, 0x10), 0x800))
    else if 0xF0 <= first <= 0xF4 then Some((3, Low(first, 0x08), 0x1_0000))
    else None
  }

  /** The payload after `count` continuation bytes from `i` on. */
  function Continue(s: seq<byte>, i: nat, count: nat, code: nat): Option<nat>
    requires i + count <= |s|
    decreases count
  {
    if count == 0 then Some(code)
    else if !IsContinuation(s[i]) then None
    else Continue(s, i + 1, count - 1, code * 0x40 + Low(s[i], 0x40))
  }

  predicate InRange(code: nat, minimum: nat) {
    minimum <= code <= 0x10_FFFF && !(0xD800 <= code <= 0xDFFF)
  }

  /** The first scalar value of `s` and how many bytes it takes. */
  function DecodeOne(s: seq<byte>): Option<(Scalar, nat)>
    requires s != []
  {
    match Lead(s[0])
    case None => None
    case Some((count, payload, minimum)) =>
      if |s| - 1 < count then None
      else
        match Continue(s, 1, count, payload)
        case None => None
        case Some(code) => if InRange(code, minimum) then Some((code, 1 + count)) else None
  }

  lemma ContinueUnrolled(s: seq<byte>, payload: nat)
    ensures |s| >= 2 ==> (Continue(s, 1, 1, payload) ==
      if IsContinuation(s[1]) then Some(payload * 0x40 + Low(s[1], 0x40)) else None)
    ensures |s| >= 3 ==> (Continue(s, 1, 2, payload) ==
      if IsContinuation(s[1]) && IsContinuation(s[2]) then
        Some((payload * 0x40 + Low(s[1], 0x40)) * 0x40 + Low(s[2], 0x40)) else None)
    ensures |s| >= 4 ==> (Continue(s, 1, 3, payload) ==
      if IsContinuation(s[1]) && IsContinuation(s[2]) && IsContinuation(s[3]) then
        Some(((payload * 0x40 + Low(s[1], 0x40)) * 0x40 + Low(s[2], 0x40)) * 0x40 + Low(s[3], 0x40)) else None)
  {
    if |s| >= 3 {
      var c1 := payload * 0x40 + Low(s[1], 0x40);
      var c2 := c1 * 0x40 + Low(s[2], 0x40);
      assert Continue(s, 2, 1, c1) == if IsContinuation(s[2]) then Continue(s, 3, 0, c2) else None;
      if |s| >= 4 {
        assert Continue(s, 2, 2, c1) == if IsContinuation(s[2]) then Continue(s, 3, 1, c2) else None;
      }
    }
  }

  /** Decoding reads back an encoding. */
  lemma DecodedIsEncoded(s: seq<byte>)
    requires s != [] && DecodeOne(s).Some?
    ensures var (v, n) := DecodeOne(s).value; n <= |s| && Encode(v) == s[..n]
  {
    hide Continue, Low, IsContinuation, Encode;
    var (v, n) := DecodeOne(s).value;
    ContinueUnrolled(s, Lead(s[0]).value.1);
    if n == 1 {
      OneByte(s[0]);
      NoContinuation(s);
      assert s[..1] == [s[0]];
    } else if n == 2 {
      TwoBytes(s[0], s[1]);
      assert s[..2] == [s[0], s[1]];
    } else if n == 3 {
      ThreeBytes(s[0], s[1], s[2]);
      assert s[..3] == [s[0], s[1], s[2]];
    } else {
      FourBytes(s[0], s[1], s[2], s[3]);
      assert s[..4] == [s[0], s[1], s[2], s[3]];
    }
  }

  lemma NoContinuation(s: seq<byte>)
    requires s != []
    ensures forall code: nat :: Continue(s, 1, 0, code) == Some(code)
  {
  }

  lemma OneByte(a: byte)
    ensures a < 0x80 ==> Encode(a) == [a]
  {
  }

  lemma TwoBytes(a: byte, b: byte)
    requires 0xC2 <= a <= 0xDF && IsContinuation(b)
    ensures var v := Low(a, 0x20) * 0x40 + Low(b, 0x40); 0x80 <= v < 0x800 && Encode(v) == [a, b]
  {
  }

  lemma ThreeBytes(a: byte, b: byte, c: byte)
    requires 0xE0 <= a <= 0xEF && IsContinuation(b) && IsContinuation(c)
    ensures var v := (Low(a, 0x10) * 0x40 + Low(b, 0x40)) * 0x40 + Low(c, 0x40);
      InRange(v, 0x800) ==> Encode(v) == [a, b, c]
  {
    var v := (Low(a, 0x10) * 0x40 + Low(b, 0x40)) * 0x40 + Low(c, 0x40);
    assert v / 0x1000 == Low(a, 0x10) && v / 0x40 == Low(a, 0x10) * 0x40 + Low(b, 0x40);
  }

  lemma FourBytes(a: byte, b: byte, c: byte, d: byte)
    requires 0xF0 <= a <= 0xF4 && IsContinuation(b) && IsContinuation(c) && IsContinuation(d)
    ensures var v := ((Low(a, 0x08) * 0x40 + Low(b, 0x40)) * 0x40 + Low(c, 0x40)) * 0x40 + Low(d, 0x40);
      InRange(v, 0x1_0000) ==> Encode(v) == [a, b, c, d]
  {
    hide Low, IsContinuation;
    Payloads(a, b, c, d);
    Digits(Low(a, 0x08), Low(b, 0x40), Low(c, 0x40), Low(d, 0x40));
  }

  /** The last digit of a number, and the number before it. */
  lemma LastDigit(q: nat, r: nat)
    requires r < 0x40
    ensures (q * 0x40 + r) / 0x40 == q && (q * 0x40 + r) % 0x40 == r
  {
  }

  /** Dropping two or three digits is dropping one at a time. */
  lemma DropDigits(v: nat)
    ensures v / 0x1000 == v / 0x40 / 0x40
    ensures v / 0x4_0000 == v / 0x1000 / 0x40
  {
  }

  lemma Digits(p: nat, q: nat, r: nat, t: nat)
    requires q < 0x40 && r < 0x40 && t < 0x40
    ensures var v := ((p * 0x40 + q) * 0x40 + r) * 0x40 + t;
      v / 0x4_0000 == p && v / 0x1000 % 0x40 == q && v / 0x40 % 0x40 == r && v % 0x40 == t
  {
    var a := p * 0x40 + q;
    var b := a * 0x40 + r;
    LastDigit(p, q);
    LastDigit(a, r);
    LastDigit(b, t);
    DropDigits(b * 0x40 + t);
  }

  lemma Payloads(a: byte, b: byte, c: byte, d: byte)
    requires 0xF0 <= a <= 0xF4 && IsContinuation(b) && IsContinuation(c) && IsContinuation(d)
    ensures a == 0xF0 + Low(a, 0x08) && b == 0x80 + Low(b, 0x40) && c == 0x80 + Low(c, 0x40) && d == 0x80 + Low(d, 0x40)
    ensures Low(b, 0x40) < 0x40 && Low(c, 0x40) < 0x40 && Low(d, 0x40) < 0x40
  {
  }

  /** Whatever follows it, an encoding is read back. */
  lemma EncodedIsDecoded(v: Scalar, rest: seq<byte>)
    ensures DecodeOne(Encode(v) + rest) == Some((v, |Encode(v)|))
  {
    hide Continue, Low, IsContinuation, Encode;
    var s := Encode(v) + rest;
    EncodedBytes(v);
    ContinueUnrolled(s, Lead(s[0]).value.1);
    NoContinuation(s);
  }

  /** The bytes of an encoding carry its payload. */
  lemma EncodedBytes(v: Scalar)
    ensures var e := Encode(v);
      && (v < 0x80 ==> |e| == 1 && LeadIs(e[0], 0, v, 0))
      && (0x80 <= v < 0x800 ==>
            |e| == 2 && LeadIs(e[0], 1, v / 0x40, 0x80) && Carries(e[1], v % 0x40))
      && (0x800 <= v < 0x1_0000 ==>
            |e| == 3 && LeadIs(e[0], 2, v / 0x1000, 0x800) && Carries(e[1], v / 0x40 % 0x40) && Carries(e[2], v % 0x40)
            && (v / 0x1000 * 0x40 + v / 0x40 % 0x40) * 0x40 + v % 0x40 == v)
      && (0x1_0000 <= v ==>
            |e| == 4 && LeadIs(e[0], 3, v / 0x4_0000, 0x1_0000)
            && Carries(e[1], v / 0x1000 % 0x40) && Carries(e[2], v / 0x40 % 0x40) && Carries(e[3], v % 0x40)
            && ((v / 0x4_0000 * 0x40 + v / 0x1000 % 0x40) * 0x40 + v / 0x40 % 0x40) * 0x40 + v % 0x40 == v)
  {
    hide Low, IsContinuation, Lead, Carries, LeadIs;
    DropDigits(v);
    CarriesDigit(v % 0x40);
    CarriesDigit(v / 0x40 % 0x40);
    CarriesDigit(v / 0x1000 % 0x40);
    if v < 0x80 {
      LeadBytes(v);
    } else if v < 0x800 {
      LeadBytes(v / 0x40);
    } else if v < 0x1_0000 {
      LeadBytes(v / 0x1000);
    } else {
      LeadBytes(v / 0x4_0000);
    }
  }

  lemma CarriesDigit(r: nat)
    requires r < 0x40
    ensures Carries(0x80 + r, r)
  {
  }

  /** Lead bytes carry the leading payload of one, two, three and four byte sequences. */
  lemma LeadBytes(payload: nat)
    ensures payload < 0x80 ==> LeadIs(payload, 0, payload, 0)
    ensures 2 <= payload < 0x20 ==> LeadIs(0xC0 + payload, 1, payload, 0x80)
    ensures payload < 0x10 ==> LeadIs(0xE0 + payload, 2, payload, 0x800)
    ensures payload <= 4 ==> LeadIs(0xF0 + payload, 3, payload, 0x1_0000)
  {
  }

  predicate LeadIs(b: byte, count: nat, payload: nat, minimum: nat) {
    Lead(b) == Some((count, payload, minimum))
  }

  predicate Carries(b: byte, payload: nat) {
    IsContinuation(b) && Low(b, 0x40) == payload
  }

  // ----- Sequences -----

  /** One scalar value can be cut off without changing whether the bytes are well formed. */
  lemma WellFormedStep(s: seq<byte>)
    requires s != []
    ensures DecodeOne(s).None? ==> !WellFormed(s)
    ensures DecodeOne(s).Some? ==>
      DecodeOne(s).value.1 <= |s| && (WellFormed(s) <==> WellFormed(s[DecodeOne(s).value.1..]))
  {
    hide DecodeOne, Encode;
    if WellFormed(s) {
      var vs: seq<Scalar> :| EncodeAll(vs) == s;
      EncodedIsDecoded(vs[0], EncodeAll(vs[1..]));
      assert s[|Encode(vs[0])|..] == EncodeAll(vs[1..]);
    }
    if DecodeOne(s).Some? {
      DecodedIsEncoded(s);
      var (v, n) := DecodeOne(s).value;
      if WellFormed(s[n..]) {
        var vs: seq<Scalar> :| EncodeAll(vs) == s[n..];
        assert ([v] + vs)[1..] == vs && s == s[..n] + s[n..];
        assert EncodeAll([v] + vs) == s;
      }
    }
  }

  /** The scalar values behind well-formed bytes are unique. */
  lemma {:induction false} EncodingIsInjective(vs: seq<Scalar>, ws: seq<Scalar>)
    requires EncodeAll(vs) == EncodeAll(ws)
    ensures vs == ws
    decreases |vs|
  {
    hide DecodeOne, Encode;
    if vs == [] || ws == [] {
      assert |EncodeAll(vs)| == 0 && |EncodeAll(ws)| == 0;
    } else {
      EncodedIsDecoded(vs[0], EncodeAll(vs[1..]));
      EncodedIsDecoded(ws[0], EncodeAll(ws[1..]));
      var n := |Encode(vs[0])|;
      assert EncodeAll(vs[1..]) == EncodeAll(vs)[n..] == EncodeAll(ws)[n..] == EncodeAll(ws[1..]);
      EncodingIsInjective(vs[1..], ws[1..]);
      assert vs == [vs[0]] + vs[1..] && ws == [ws[0]] + ws[1..];
    }
  }

  // ----- The validator -----

  /** Accepts exactly the byte strings that encode some sequence of scalar values. */
  method ValidUtf8(value: seq<byte>) returns (ok: bool)
    ensures ok <==> WellFormed(value)
  {
    hide Encode, EncodeAll, WellFormed, Low, IsContinuation;
    var i := 0;
    assert value[0..] == value;
    while i < |value|
      invariant 0 <= i <= |value|
      invariant WellFormed(value) <==> WellFormed(value[i..])
    {
      ghost var rest := value[i..];
      WellFormedStep(rest);
      var first := value[i];
      i := i + 1;
      if first < 0x80 {
        assert rest[1..] == value[i..];
        continue;
      }
      var count, code, minimum;
      if 0xC2 <= first <= 0xDF {
        count, code, minimum := 1, Low(first, 0x20), 0x80;
      } else if 0xE0 <= first <= 0xEF {
        count, code, minimum := 2, Low(first, 0x10), 0x800;
      } else if 0xF0 <= first <= 0xF4 {
        count, code, minimum := 3, Low(first, 0x08), 0x1_0000;
      } else {
        return false;
      }
      if |value| - i < count {
        return false;
      }
      ghost var start, total, payload := i, count, code;
      while count > 0
        invariant 0 <= count <= total && i == start + (total - count) && start + total <= |value|
        invariant code >= 0
        invariant Continue(rest, 1, total, payload) == Continue(rest, 1 + (total - count), count, code)
      {
        var next := value[i];
        assert rest[1 + (total - count)] == next;
        i := i + 1;
        if !IsContinuation(next) {
          return false;
        }
        code := code * 0x40 + Low(next, 0x40);
        count := count - 1;
      }
      if code < minimum || code > 0x10_FFFF || (0xD800 <= code <= 0xDFFF) {
        return false;
      }
      assert rest[1 + total..] == value[i..];
    }
    NothingIsWellFormed(value[i..]);
    return true;
  }

  lemma NothingIsWellFormed(s: seq<byte>)
    ensures s == [] ==> WellFormed(s)
  {
    assert EncodeAll([]) == [];
  }

  /** The masks and shifts of the code are the remainders and products used here. */
  lemma MasksAreRemainders(b: bv8, code: bv32)
    requires code < 0x100_0000
    ensures b & 0xC0 == 0x80 <==> b / 0x40 == 2
    ensures b & 0x3F == b % 0x40 && b & 0x1F == b % 0x20 && b & 0x0F == b % 0x10 && b & 0x07 == b % 0x08
    ensures (code << 6) | ((b & 0x3F) as bv32) == code * 0x40 + (b % 0x40) as bv32
  {
  }
}
