/** UTF-8 (RFC 3629): the encoder, and the strict decoder that refuses what the encoder never
    writes: overlong forms, surrogates, stray and missing continuation bytes. */
module Utf8 {
  import opened Common

  function EncodeChar(c: char): (b: seq<byte>)
    ensures 1 <= |b| <= 4
    ensures c as int < 0x80 <==> |b| == 1
    ensures b[0] < 0x80 ==> |b| == 1
  {
    var n := c as int;
    if n < 0x80 then [n]
    else if n < 0x800 then [0xC0 + n / 64, Low(n)]
    else if n < 0x10000 then [0xE0 + n / 64 / 64, Low(n / 64), Low(n)]
    else [0xF0 + n / 64 / 64 / 64, Low(n / 64 / 64), Low(n / 64), Low(n)]
  }

  /** A continuation byte: the low six bits. */
  function Low(n: nat): byte {
    0x80 + n % 64
  }

  function Encode(s: string): seq<byte> {
    if s == "" then [] else EncodeChar(s[0]) + Encode(s[1..])
  }

  predicate IsLow(s: seq<byte>, i: nat) {
    i < |s| && 0x80 <= s[i] < 0xC0
  }

  predicate IsScalar(n: int) {
    0 <= n < 0xD800 || 0xE000 <= n < 0x110000
  }

  /** A continuation byte adds six bits. */
  function Next(n: int, b: byte): int {
    n * 64 + (b - 0x80)
  }

  /** The number the first bytes stand for and how many they are, when they are well formed. */
  function First(s: seq<byte>): (r: Option<(char, nat)>)
    ensures r.Some? ==> 0 < r.value.1 <= |s|
  {
    if s == [] then None
    else if s[0] < 0x80 then Some((s[0] as char, 1))
    else if 0xC0 <= s[0] < 0xE0 && IsLow(s, 1) then
      Scalar(Next(s[0] - 0xC0, s[1]), 0x80, 2)
    else if 0xE0 <= s[0] < 0xF0 && IsLow(s, 1) && IsLow(s, 2) then
      Scalar(Next(Next(s[0] - 0xE0, s[1]), s[2]), 0x800, 3)
    else if 0xF0 <= s[0] && IsLow(s, 1) && IsLow(s, 2) && IsLow(s, 3) then
      Scalar(Next(Next(Next(s[0] - 0xF0, s[1]), s[2]), s[3]), 0x10000, 4)
    else None
  }

  /** Only what needs that many bytes. */
  function Scalar(n: int, least: int, length: nat): (r: Option<(char, nat)>)
    ensures r.Some? ==> r.value.1 == length
  {
    if n >= least && IsScalar(n) then Some((n as char, length)) else None
  }

  /** The text up to the first malformed byte, and whether there is none. */
  function Scan(s: seq<byte>): (string, bool) {
    if s == [] then ("", true)
    else
      match First(s)
      case None => ("", false)
      case Some((c, n)) => var rest := Scan(s[n..]); ([c] + rest.0, rest.1)
  }

  function Decode(s: seq<byte>): Option<string> {
    if Scan(s).1 then Some(Scan(s).0) else None
  }

  // ----- Round trips -----

  lemma NextIsLow(n: nat, b: byte)
    requires 0x80 <= b < 0xC0
    ensures Next(n, b) / 64 == n && Low(Next(n, b)) == b
  {
  }

  lemma LowIsNext(n: nat)
    ensures Next(n / 64, Low(n)) == n && 0x80 <= Low(n) < 0xC0
  {
  }

  lemma FirstOfTwo(a: byte, b: byte, n: int, rest: seq<byte>)
    requires 0xC0 <= a < 0xE0 && 0x80 <= b < 0xC0 && n == Next(a - 0xC0, b) >= 0x80 && IsScalar(n)
    ensures First([a, b] + rest) == Some((n as char, 2))
  {
  }

  lemma FirstOfThree(a: byte, b: byte, c: byte, n: int, rest: seq<byte>)
    requires 0xE0 <= a < 0xF0 && 0x80 <= b < 0xC0 && 0x80 <= c < 0xC0
    requires n == Next(Next(a - 0xE0, b), c) >= 0x800 && IsScalar(n)
    ensures First([a, b, c] + rest) == Some((n as char, 3))
  {
  }

  lemma FirstOfFour(a: byte, b: byte, c: byte, d: byte, n: int, rest: seq<byte>)
    requires 0xF0 <= a && 0x80 <= b < 0xC0 && 0x80 <= c < 0xC0 && 0x80 <= d < 0xC0
    requires n == Next(Next(Next(a - 0xF0, b), c), d) >= 0x10000 && IsScalar(n)
    ensures First([a, b, c, d] + rest) == Some((n as char, 4))
  {
  }

  lemma FirstOfChar(c: char, rest: seq<byte>)
    ensures First(EncodeChar(c) + rest) == Some((c, |EncodeChar(c)|))
  {
    var n := c as int;
    LowIsNext(n);
    LowIsNext(n / 64);
    LowIsNext(n / 64 / 64);
    if n < 0x80 {
      assert (EncodeChar(c) + rest)[0] == n;
    } else if n < 0x800 {
      FirstOfTwo(0xC0 + n / 64, Low(n), n, rest);
    } else if n < 0x10000 {
      FirstOfThree(0xE0 + n / 64 / 64, Low(n / 64), Low(n), n, rest);
    } else {
      FirstOfFour(0xF0 + n / 64 / 64 / 64, Low(n / 64 / 64), Low(n / 64), Low(n), n, rest);
    }
  }

  lemma ScanChar(c: char, rest: seq<byte>)
    ensures Scan(EncodeChar(c) + rest) == ([c] + Scan(rest).0, Scan(rest).1)
  {
    FirstOfChar(c, rest);
    assert (EncodeChar(c) + rest)[|EncodeChar(c)|..] == rest;
  }

  lemma EncodeCons(c: char, t: string)
    ensures Encode([c] + t) == EncodeChar(c) + Encode(t)
  {
    assert ([c] + t)[1..] == t;
  }

  lemma {:induction false} ScanAppend(s: string, rest: seq<byte>)
    ensures Scan(Encode(s) + rest) == (s + Scan(rest).0, Scan(rest).1)
  {
    if s == "" {
      assert Encode(s) + rest == rest && s + Scan(rest).0 == Scan(rest).0;
    } else {
      var c, t := s[0], s[1..];
      ScanAppend(t, rest);
      ScanChar(c, Encode(t) + rest);
      ScanCons(EncodeChar(c), c, t, Encode(t), rest);
      EncodeCons(c, t);
      assert s == [c] + t;
    }
  }

  lemma ScanCons(head: seq<byte>, c: char, t: string, encoded: seq<byte>, rest: seq<byte>)
    requires Scan(head + (encoded + rest)) == ([c] + Scan(encoded + rest).0, Scan(encoded + rest).1)
    requires Scan(encoded + rest) == (t + Scan(rest).0, Scan(rest).1)
    ensures Scan((head + encoded) + rest) == (([c] + t) + Scan(rest).0, Scan(rest).1)
  {
    Regroup(head, encoded, rest);
    Regroup([c], t, Scan(rest).0);
  }

  lemma DecodeEncode(s: string)
    ensures Decode(Encode(s)) == Some(s)
  {
    ScanAppend(s, []);
    assert Encode(s) + [] == Encode(s) && s + "" == s;
  }

  lemma CharOfFirst(s: seq<byte>)
    requires First(s).Some?
    ensures var (c, n) := First(s).value; s[..n] == EncodeChar(c)
  {
    if 0xC0 <= s[0] < 0xE0 {
      NextIsLow(s[0] - 0xC0, s[1]);
    } else if 0xE0 <= s[0] < 0xF0 {
      NextIsLow(s[0] - 0xE0, s[1]);
      NextIsLow(Next(s[0] - 0xE0, s[1]), s[2]);
    } else if 0xF0 <= s[0] {
      NextIsLow(s[0] - 0xF0, s[1]);
      NextIsLow(Next(s[0] - 0xF0, s[1]), s[2]);
      NextIsLow(Next(Next(s[0] - 0xF0, s[1]), s[2]), s[3]);
    }
  }

  /** One character read, and the rest. */
  lemma ScanStep(s: seq<byte>) returns (c: char, n: nat)
    requires s != [] && Scan(s).1
    ensures 0 < n <= |s| && s[..n] == EncodeChar(c)
    ensures Scan(s[n..]).1 && Scan(s).0 == [c] + Scan(s[n..]).0
  {
    c, n := First(s).value.0, First(s).value.1;
    CharOfFirst(s);
  }

  lemma {:induction false} EncodeScan(s: seq<byte>)
    requires Scan(s).1
    ensures Encode(Scan(s).0) == s
  {
    if s != [] {
      var c, n := ScanStep(s);
      EncodeScan(s[n..]);
      EncodeCons(c, Scan(s[n..]).0);
      assert s == s[..n] + s[n..];
    }
  }

  /** The decoder is strict: it accepts nothing but encodings. */
  lemma EncodeDecode(s: seq<byte>)
    requires Decode(s).Some?
    ensures Encode(Decode(s).value) == s
  {
    EncodeScan(s);
  }

  lemma {:induction false} EncodeAppend(a: string, b: string)
    ensures Encode(a + b) == Encode(a) + Encode(b)
  {
    if a == "" {
      assert a + b == b;
    } else {
      var c, t := a[0], a[1..];
      EncodeAppend(t, b);
      EncodeCons(c, t);
      EncodeCons(c, t + b);
      Regroup([c], t, b);
      Regroup(EncodeChar(c), Encode(t), Encode(b));
      assert a == [c] + t;
    }
  }

  /** Decodable bytes followed by any others. */
  lemma DecodeAppend(a: seq<byte>, b: seq<byte>)
    requires Decode(a).Some?
    ensures Decode(a + b) == match Decode(b) case Some(t) => Some(Decode(a).value + t) case None => None
    ensures Scan(a + b).0 == Decode(a).value + Scan(b).0
  {
    EncodeDecode(a);
    ScanAppend(Decode(a).value, b);
  }

  // ----- Cuts -----

  /** The first `k` bytes of the text's encoding are the encoding of its first `i` characters. */
  predicate EndsAt(s: string, i: int, k: int) {
    0 <= i <= |s| && |Encode(s[..i])| == k
  }

  ghost predicate OnBoundary(s: string, k: nat) {
    exists i :: EndsAt(s, i, k)
  }

  /** The start of a character, followed by nothing or by ASCII, is malformed. */
  lemma TornChar(c: char, k: nat, rest: seq<byte>)
    requires 0 < k < |EncodeChar(c)| && (rest == [] || rest[0] < 0x80)
    ensures First(EncodeChar(c)[..k] + rest).None?
  {
    var s := EncodeChar(c)[..k] + rest;
    assert s[0] == EncodeChar(c)[0];
    assert !IsLow(s, k) by {
      assert rest != [] ==> s[k] == rest[0];
    }
  }

  lemma EndsAtTail(s: string, i: int, k: int)
    requires 0 < i <= |s|
    ensures EndsAt(s, i, k) <==> k >= |EncodeChar(s[0])| && EndsAt(s[1..], i - 1, k - |EncodeChar(s[0])|)
  {
    assert s[..i][1..] == s[1..][..i - 1];
  }

  /** The first `k` bytes decode exactly when they end with a whole character. */
  lemma {:induction false} CutDecodes(s: string, k: nat)
    requires k <= |Encode(s)|
    ensures Decode(Encode(s)[..k]).Some? <==> OnBoundary(s, k)
    decreases |s|
  {
    var b := Encode(s)[..k];
    if k == 0 {
      assert EndsAt(s, 0, 0);
    } else {
      var head := EncodeChar(s[0]);
      forall i: int | 0 < i <= |s|
        ensures EndsAt(s, i, k) <==> k >= |head| && EndsAt(s[1..], i - 1, k - |head|)
      {
        EndsAtTail(s, i, k);
      }
      if k < |head| {
        assert b == head[..k];
        TornChar(s[0], k, []);
        assert head[..k] + [] == b;
      } else {
        var rest := Encode(s[1..])[..k - |head|];
        assert b == head + rest;
        FirstOfChar(s[0], rest);
        assert b[|head|..] == rest;
        CutDecodes(s[1..], k - |head|);
        if OnBoundary(s[1..], k - |head|) {
          var i :| EndsAt(s[1..], i, k - |head|);
          assert EndsAt(s, i + 1, k);
        }
      }
    }
  }

  /** And then to those characters. */
  lemma CutDecodesTo(s: string, i: nat, k: nat)
    requires EndsAt(s, i, k) && k <= |Encode(s)|
    ensures Decode(Encode(s)[..k]) == Some(s[..i])
  {
    EncodeAppend(s[..i], s[i..]);
    assert s == s[..i] + s[i..];
    assert Encode(s)[..k] == Encode(s[..i]);
    DecodeEncode(s[..i]);
  }

  /** Text with a character beyond ASCII, and no other, can be cut inside one. */
  lemma CanBeTorn(s: string)
    ensures (exists k: nat :: k <= |Encode(s)| && !OnBoundary(s, k)) <==> !IsAscii(s)
  {
    if !IsAscii(s) {
      var i :| 0 <= i < |s| && s[i] as int >= 0x80;
      TornAfter(s, i);
    } else {
      forall k: nat | k <= |Encode(s)|
        ensures OnBoundary(s, k)
      {
        AtLeastOneEach(s);
        AtLeastOneEach(s[..k]);
        assert EndsAt(s, k, k);
      }
    }
  }

  /** One byte past the start of such a character. */
  lemma TornAfter(s: string, i: nat)
    requires i < |s| && s[i] as int >= 0x80
    ensures |Encode(s[..i])| + 1 < |Encode(s)| && !OnBoundary(s, |Encode(s[..i])| + 1)
  {
    OneMore(s, i);
    Longer(s, i + 1, |s|);
    assert s[..|s|] == s;
    var k := |Encode(s[..i])| + 1;
    forall j: int | 0 <= j <= |s|
      ensures !EndsAt(s, j, k)
    {
      if j <= i {
        Longer(s, j, i);
      } else {
        Longer(s, i + 1, j);
      }
    }
  }

  /** For instance: an accented letter takes two bytes, and the first of them alone, or with the next
      record right after it, cannot be read. */
  /** Examples of section 7 of RFC 3629, with characters of one to four bytes. */
  lemma Examples()
    ensures Encode("A\U{2262}\U{0391}.") == [0x41, 0xE2, 0x89, 0xA2, 0xCE, 0x91, 0x2E]
    ensures Encode("\U{233B4}") == [0xF0, 0xA3, 0x8E, 0xB4]
  {
    var s := "A\U{2262}\U{0391}.";
    assert s[1..][1..] == s[2..] && s[2..][1..] == s[3..] && s[3..][1..] == "";
    assert EncodeChar(s[1]) == [0xE2, 0x89, 0xA2] && EncodeChar(s[2]) == [0xCE, 0x91];
    assert "\U{233B4}"[1..] == "";
  }

  lemma AccentTorn(b: seq<byte>)
    requires b == [0xC3] || b == [0xC3, 0x7B]
    ensures Encode("é") == [0xC3, 0xA9] && Encode("{") == [0x7B] && Decode(b).None?
  {
    assert "é"[1..] == "" && "{"[1..] == "";
    assert First(b).None?;
  }

  lemma OneMore(s: string, i: nat)
    requires i < |s|
    ensures |Encode(s[..i + 1])| == |Encode(s[..i])| + |EncodeChar(s[i])|
  {
    EncodeAppend(s[..i], [s[i]]);
    assert s[..i + 1] == s[..i] + [s[i]] && [s[i]][1..] == "";
  }

  lemma Longer(s: string, i: nat, j: nat)
    requires i <= j <= |s|
    ensures |Encode(s[..j])| >= |Encode(s[..i])| + (j - i)
  {
    EncodeAppend(s[..i], s[i..j]);
    assert s[..j] == s[..i] + s[i..j];
    AtLeastOneEach(s[i..j]);
  }

  predicate IsAscii(s: string) {
    forall i :: 0 <= i < |s| ==> s[i] as int < 0x80
  }

  lemma {:induction false} AtLeastOneEach(s: string)
    ensures |Encode(s)| >= |s|
    ensures IsAscii(s) ==> |Encode(s)| == |s|
  {
    if s != "" {
      AtLeastOneEach(s[1..]);
    }
  }

  // ----- Damage -----

  lemma FirstNotMended(s: seq<byte>, more: seq<byte>)
    requires s != [] && (more == [] || more[0] < 0x80)
    ensures First(s + more) == First(s)
  {
    var t := s + more;
    assert t[0] == s[0];
    assert forall i: nat :: i < |s| ==> IsLow(t, i) == IsLow(s, i);
    assert !IsLow(t, |s|) by {
      assert more != [] ==> t[|s|] == more[0];
    }
  }

  /** What starts with ASCII cannot complete what came before it. */
  lemma {:induction false} NotMended(s: seq<byte>, more: seq<byte>)
    requires Decode(s).None? && (more == [] || more[0] < 0x80)
    ensures Decode(s + more).None? && Scan(s + more).0 == Scan(s).0
    decreases |s|
  {
    FirstNotMended(s, more);
    if First(s).Some? {
      var n := First(s).value.1;
      NotMended(s[n..], more);
      assert (s + more)[n..] == s[n..] + more;
    }
  }

  lemma FirstStays(s: seq<byte>, more: seq<byte>)
    requires First(s).Some?
    ensures First(s + more) == First(s)
  {
  }

  /** Whatever follows, the text read so far stays. */
  lemma {:induction false} ScanGrows(s: seq<byte>, more: seq<byte>)
    ensures Scan(s).0 <= Scan(s + more).0
    decreases |s|
  {
    if s != [] && First(s).Some? {
      var n := First(s).value.1;
      FirstStays(s, more);
      ScanGrows(s[n..], more);
      assert (s + more)[n..] == s[n..] + more;
    }
  }
}
