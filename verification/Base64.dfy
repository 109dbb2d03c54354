/** Standard, padded base64 (section 4 of RFC 4648) as the client and the relay use it.
    Bytes are regrouped into sextets, sextets are spelled with the alphabet, and the text is
    padded with `=` to a multiple of four characters. */
module Base64 {
  import opened Common

  type sextet = v: int | 0 <= v < 64

  /** The alphabet of table 1 of RFC 4648. */
  function Symbol(v: sextet): (c: char)
    ensures Value(c) == Some(v)
    ensures c != '=' && c != '\n' && c != '\r' && c as int < 128
  {
    if v < 26 then (65 + v) as char
    else if v < 52 then (97 + v - 26) as char
    else if v < 62 then (48 + v - 52) as char
    else if v == 62 then '+'
    else '/'
  }

  function Value(c: char): Option<sextet> {
    if 'A' <= c <= 'Z' then Some(c as int - 65)
    else if 'a' <= c <= 'z' then Some(c as int - 97 + 26)
    else if '0' <= c <= '9' then Some(c as int - 48 + 52)
    else if c == '+' then Some(62)
    else if c == '/' then Some(63)
    else None
  }

  /** Three bytes are four sextets; one or two bytes left over are two or three. */
  function Sextets(s: seq<byte>): seq<sextet> {
    if |s| == 0 then []
    else if |s| == 1 then [s[0] / 4, s[0] % 4 * 16]
    else if |s| == 2 then [s[0] / 4, s[0] % 4 * 16 + s[1] / 16, s[1] % 16 * 4]
    else
      [s[0] / 4, s[0] % 4 * 16 + s[1] / 16, s[1] % 16 * 4 + s[2] / 64, s[2] % 64] + Sextets(s[3..])
  }

  /** The way back. The low bits a short group does not need are ignored, as both decoders do. */
  function Bytes(v: seq<sextet>): seq<byte> {
    if |v| < 2 then []
    else if |v| == 2 then [High(v[0], v[1])]
    else if |v| == 3 then [High(v[0], v[1]), Middle(v[1], v[2])]
    else [High(v[0], v[1]), Middle(v[1], v[2]), Low(v[2], v[3])] + Bytes(v[4..])
  }

  /** The three bytes of a group, each across two neighbouring sextets. */
  function High(a: int, b: int): byte
    requires 0 <= a < 64 && 0 <= b < 64
  {
    a * 4 + b / 16
  }

  function Middle(b: int, c: int): byte
    requires 0 <= b < 64 && 0 <= c < 64
  {
    b % 16 * 16 + c / 4
  }

  function Low(c: int, d: int): byte
    requires 0 <= c < 64 && 0 <= d < 64
  {
    c % 4 * 64 + d
  }

  /** How many `=` the string ends with. */
  function Padding(t: string): (k: nat)
    ensures k <= |t|
  {
    if t == "" || t[|t| - 1] != '=' then 0 else 1 + Padding(t[..|t| - 1])
  }

  function Encode(s: seq<byte>): string {
    Spell(Sextets(s)) + seq(Shortfall(|s|), _ => '=')
  }

  /** How many bytes are missing from the last group of three. */
  function Shortfall(n: nat): nat {
    if n % 3 == 0 then 0 else 3 - n % 3
  }

  function Spell(v: seq<sextet>): (t: string)
    ensures |t| == |v|
    ensures forall i :: 0 <= i < |t| ==> t[i] == Symbol(v[i])
  {
    seq(|v|, i requires 0 <= i < |v| => Symbol(v[i]))
  }

  predicate Alphabetic(t: string) {
    forall i :: 0 <= i < |t| ==> Value(t[i]).Some?
  }

  function Read(t: string): (v: seq<sextet>)
    requires Alphabetic(t)
    ensures |v| == |t|
    ensures forall i :: 0 <= i < |v| ==> Some(v[i]) == Value(t[i])
  {
    seq(|t|, i requires 0 <= i < |t| => Value(t[i]).value)
  }

  /** The text without its padding. */
  function Body(t: string): string {
    t[..|t| - Padding(t)]
  }

  /** The strict decoder: whole groups of four, the alphabet only, one or two `=` at the very end. */
  function Decode(t: string): Option<seq<byte>> {
    if |t| % 4 == 0 && Padding(t) <= 2 && Alphabetic(Body(t)) then Some(Bytes(Read(Body(t)))) else None
  }

  /** The client's decoder (Go's `StdEncoding`) also skips CR and LF. */
  function DecodeSkippingNewlines(t: string): Option<seq<byte>> {
    Decode(Filter(c => c != '\n' && c != '\r', t))
  }

  /** The relay's decoder (Python's `b64decode` with `validate=True`) takes a partial last group
      with exactly the `=` it lacks; but after whole groups it takes any number of them. */
  predicate RelayAccepts(t: string) {
    && Alphabetic(Body(t))
    && if |Body(t)| % 4 == 0 then Body(t) != "" || Padding(t) == 0
       else |Body(t)| % 4 != 1 && |Body(t)| % 4 + Padding(t) == 4
  }

  function RelayDecode(t: string): Option<seq<byte>> {
    if RelayAccepts(t) then Some(Bytes(Read(Body(t)))) else None
  }

  /** The client's size estimate for a payload it has not decoded yet. */
  function EstimatedLen(s: string): nat {
    (|s| - Padding(s)) * 6 / 8
  }

  /** Strips the trailing `=` one by one, then converts what is left. On a standard payload the
      estimate is exact. */
  method DecodedLen(s: string) returns (n: nat)
    ensures n == EstimatedLen(s)
    ensures Decode(s).Some? ==> n == |Decode(s).value|
  {
    n := |s|;
    assert s[..n] == s;
    while n > 0 && s[n - 1] == '='
      invariant 0 <= n <= |s|
      invariant Padding(s) == |s| - n + Padding(s[..n])
    {
      assert s[..n][..n - 1] == s[..n - 1];
      n := n - 1;
    }
    if Decode(s).Some? {
      ghost var b := DecodedSize(s);
    }
    n := n * 6 / 8;
  }

  // ----- Lemmas -----

  lemma Regroup(x: byte, y: byte, z: byte)
    ensures High(x / 4, x % 4 * 16 + y / 16) == x
    ensures Middle(x % 4 * 16 + y / 16, y % 16 * 4 + z / 64) == y
    ensures Low(y % 16 * 4 + z / 64, z % 64) == z
  {
  }

  /** Reading the four sextets of a group gives its three bytes back. */
  lemma GroupBack(x: byte, y: byte, z: byte, rest: seq<sextet>)
    ensures Bytes([x / 4, x % 4 * 16 + y / 16, y % 16 * 4 + z / 64, z % 64] + rest) == [x, y, z] + Bytes(rest)
  {
    Regroup(x, y, z);
    var v := [x / 4, x % 4 * 16 + y / 16, y % 16 * 4 + z / 64, z % 64] + rest;
    assert v[4..] == rest;
  }

  lemma ShortGroup(x: byte, y: byte)
    ensures High(x / 4, x % 4 * 16) == x
    ensures High(x / 4, x % 4 * 16 + y / 16) == x && Middle(x % 4 * 16 + y / 16, y % 16 * 4) == y
  {
    Regroup(x, y, 0);
    Regroup(x, 0, 0);
  }

  lemma {:induction false} BytesOfSextets(s: seq<byte>)
    ensures Bytes(Sextets(s)) == s
  {
    if |s| > 2 {
      BytesOfSextets(s[3..]);
      GroupBack(s[0], s[1], s[2], Sextets(s[3..]));
      assert s == [s[0], s[1], s[2]] + s[3..];
    } else if |s| == 2 {
      ShortGroup(s[0], s[1]);
    } else if |s| == 1 {
      ShortGroup(s[0], 0);
    }
  }

  lemma {:induction false} SextetsLength(s: seq<byte>)
    ensures |Sextets(s)| == |s| / 3 * 4 + (if |s| % 3 == 0 then 0 else |s| % 3 + 1)
  {
    if |s| > 2 {
      SextetsLength(s[3..]);
    }
  }

  lemma GroupSize(n: nat)
    ensures (n + 4) * 6 / 8 == n * 6 / 8 + 3 && (n + 4) % 4 == n % 4
  {
  }

  lemma {:induction false} BytesLength(v: seq<sextet>)
    requires |v| % 4 != 1
    ensures |Bytes(v)| == |v| * 6 / 8
  {
    if |v| > 3 {
      GroupSize(|v| - 4);
      BytesLength(v[4..]);
    }
  }

  lemma {:induction false} PaddingEnds(body: string, k: nat)
    requires body == "" || body[|body| - 1] != '='
    ensures Padding(body + seq(k, _ => '=')) == k
  {
    var t := body + seq(k, _ => '=');
    if k == 0 {
      assert t == body;
    } else {
      assert t[..|t| - 1] == body + seq(k - 1, _ => '=');
      PaddingEnds(body, k - 1);
    }
  }

  lemma ReadSpelled(v: seq<sextet>)
    ensures Alphabetic(Spell(v)) && Read(Spell(v)) == v
  {
  }

  lemma DecodesTo(t: string, body: string, v: seq<sextet>, k: nat)
    requires |t| % 4 == 0 && Padding(t) == k <= 2 && t[..|t| - k] == body
    requires Alphabetic(body) && Read(body) == v
    ensures Decode(t) == Some(Bytes(v))
  {
  }

  lemma SpelledAndPadded(v: seq<sextet>, body: string, k: nat, t: string)
    requires body == Spell(v) && t == body + seq(k, _ => '=')
    ensures Padding(t) == k && |t| == |v| + k && t[..|v|] == body
  {
    PaddingEnds(body, k);
  }

  lemma DecodeSpelled(v: seq<sextet>, body: string, k: nat, t: string)
    requires k <= 2 && (|v| + k) % 4 == 0 && body == Spell(v) && t == body + seq(k, _ => '=')
    ensures Decode(t) == Some(Bytes(v))
  {
    SpelledAndPadded(v, body, k, t);
    ReadSpelled(v);
    DecodesTo(t, body, v, k);
  }

  /** Base64 text is four characters for every three bytes, rounded up. */
  lemma EncodeLength(s: seq<byte>)
    ensures |Encode(s)| == (|s| + 2) / 3 * 4
  {
    SextetsLength(s);
  }

  lemma PaddedUp(n: nat, length: nat)
    requires length == n / 3 * 4 + (if n % 3 == 0 then 0 else n % 3 + 1)
    ensures Shortfall(n) <= 2 && (length + Shortfall(n)) % 4 == 0
  {
  }

  lemma SpelledParts(s: seq<byte>) returns (v: seq<sextet>, body: string, k: nat)
    ensures Encode(s) == body + seq(k, _ => '=') && body == Spell(v)
    ensures k <= 2 && (|v| + k) % 4 == 0 && Bytes(v) == s
  {
    v, k := Sextets(s), Shortfall(|s|);
    body := Spell(v);
    SextetsLength(s);
    PaddedUp(|s|, |v|);
    BytesOfSextets(s);
  }

  /** Decoding an encoding gives the bytes back, whatever they are. */
  lemma DecodeEncode(s: seq<byte>)
    ensures Decode(Encode(s)) == Some(s)
  {
    var v, body, k := SpelledParts(s);
    DecodeSpelled(v, body, k, Encode(s));
  }

  /** Encoded text never contains a line break, so the client's lenient decoder inverts it too. */
  lemma LenientDecodeEncode(s: seq<byte>)
    ensures DecodeSkippingNewlines(Encode(s)) == Some(s)
  {
    assert forall c <- Encode(s) :: c != '\n' && c != '\r';
    FilterAll(c => c != '\n' && c != '\r', Encode(s));
    DecodeEncode(s);
  }

  lemma WholeGroups(n: nat, p: nat, b: nat, e: nat)
    requires n % 4 == 0 && p <= 2 && p <= n && b == (n - p) * 6 / 8 && e == (b + 2) / 3 * 4
    ensures e == n
  {
    var q := n / 4;
    assert n == 4 * q;
    assert b == 3 * q - p;
    assert e == 4 * q;
  }

  lemma NeverOneLeft(n: nat, p: nat)
    requires n % 4 == 0 && p <= 2 && p <= n
    ensures (n - p) % 4 != 1
  {
  }

  lemma DecodedSize(t: string) returns (b: nat)
    requires Decode(t).Some?
    ensures b == |Decode(t).value| == EstimatedLen(t)
  {
    b := |Decode(t).value|;
    NeverOneLeft(|t|, Padding(t));
    BytesLength(Read(Body(t)));
  }

  lemma EncodedSize(s: seq<byte>) returns (e: nat)
    ensures e == |Encode(s)| == (|s| + 2) / 3 * 4
  {
    e := |Encode(s)|;
    EncodeLength(s);
  }

  /** A string the strict decoder accepts is exactly as long as the encoding of what it decodes to:
      no shorter or longer spelling of the same bytes is accepted. */
  lemma DecodeLength(t: string)
    requires Decode(t).Some?
    ensures |t| == |Encode(Decode(t).value)|
  {
    var b := DecodedSize(t);
    var e := EncodedSize(Decode(t).value);
    WholeGroups(|t|, Padding(t), b, e);
  }

  // ----- The two decoders -----

  lemma LengthOfParts(t: string)
    ensures |t| == |Body(t)| + Padding(t)
  {
  }

  lemma PaddedGroups(n: nat, p: nat)
    ensures (n + p) % 4 == 0 && p <= 2 <==> (n % 4 == 0 && p == 0) || (n % 4 != 1 && n % 4 != 0 && n % 4 + p == 4)
  {
  }

  /** The strict decoder accepts what the relay's does, less surplus padding after whole groups;
      and both read the same bytes. */
  lemma StrictIsRelayWithoutSurplus(t: string)
    ensures Decode(t).Some? <==> RelayDecode(t).Some? && !(|Body(t)| % 4 == 0 && Padding(t) > 0)
    ensures Decode(t).Some? ==> Decode(t) == RelayDecode(t)
  {
    LengthOfParts(t);
    PaddedGroups(|Body(t)|, Padding(t));
  }

  lemma RelayDecodeEncode(s: seq<byte>)
    ensures RelayDecode(Encode(s)) == Some(s)
  {
    DecodeEncode(s);
    StrictIsRelayWithoutSurplus(Encode(s));
  }

  lemma FullGroups(s: seq<byte>) returns (text: string)
    requires s != [] && |s| % 3 == 0
    ensures text == Encode(s) && text != "" && |text| % 4 == 0 && text[|text| - 1] != '='
    ensures Alphabetic(text) && Bytes(Read(text)) == s
  {
    var v := Sextets(s);
    text := Spell(v);
    SextetsLength(s);
    BytesOfSextets(s);
    assert Encode(s) == text && Read(text) == v;
  }

  /** Whole groups followed by any number of `=`: the relay reads them, the strict decoder does not. */
  lemma SurplusPadding(s: seq<byte>, k: nat)
    requires s != [] && |s| % 3 == 0 && k > 0
    ensures var t := Encode(s) + seq(k, _ => '=');
            && RelayDecode(t) == Some(s) && Decode(t) == None
            && Alphabetic(Body(t)) && |Body(t)| % 4 == 0 && Padding(t) == k
  {
    var text := FullGroups(s);
    var t := text + seq(k, _ => '=');
    PaddingEnds(text, k);
    assert Body(t) == text;
    StrictIsRelayWithoutSurplus(t);
  }

  /** "AAAA" spells three zero bytes. */
  lemma ThreeZeros()
    ensures Encode([0, 0, 0]) == "AAAA"
  {
    var z: seq<byte> := [0, 0, 0];
    assert z[3..] == [];
    assert Sextets(z) == [0, 0, 0, 0];
  }

  // ----- The size estimate on any payload the client accepts -----

  predicate IsMark(c: char) {
    c == '\n' || c == '\r' || c == '='
  }

  /** How many characters are line breaks or `=`. */
  function Marks(t: string): nat {
    if t == "" then 0 else Marks(t[..|t| - 1]) + if IsMark(t[|t| - 1]) then 1 else 0
  }

  /** How many characters carry data. */
  function Data(t: string): nat {
    if t == "" then 0 else Data(t[..|t| - 1]) + if IsMark(t[|t| - 1]) then 0 else 1
  }

  lemma {:induction false} DataAndMarks(t: string)
    ensures |t| == Data(t) + Marks(t)
  {
    if t != "" {
      DataAndMarks(t[..|t| - 1]);
    }
  }

  lemma {:induction false} SkippingKeepsData(t: string)
    ensures Data(Filter(c => c != '\n' && c != '\r', t)) == Data(t)
  {
    if t != "" {
      var front, last := t[..|t| - 1], t[|t| - 1];
      var kept := Filter(c => c != '\n' && c != '\r', front);
      SkippingKeepsData(front);
      assert (kept + [last])[..|kept|] == kept;
    }
  }

  lemma {:induction false} BodyKeepsData(t: string)
    ensures Data(Body(t)) == Data(t)
  {
    if t != "" && t[|t| - 1] == '=' {
      var front := t[..|t| - 1];
      BodyKeepsData(front);
      assert Body(t) == Body(front);
    } else {
      assert Body(t) == t;
    }
  }

  lemma {:induction false} AlphabeticIsData(t: string)
    requires Alphabetic(t)
    ensures Data(t) == |t|
  {
    if t != "" {
      assert Value(t[|t| - 1]).Some?;
      AlphabeticIsData(t[..|t| - 1]);
    }
  }

  /** The payload's bytes, and the characters that carry them. */
  lemma AcceptedData(t: string) returns (d: nat, b: nat)
    requires DecodeSkippingNewlines(t).Some?
    ensures d == Data(Body(t)) && b == |DecodeSkippingNewlines(t).value|
    ensures b == d * 6 / 8 && d % 4 != 1
  {
    var kept := Filter(c => c != '\n' && c != '\r', t);
    b := DecodedSize(kept);
    d := |Body(kept)|;
    NeverOneLeft(|kept|, Padding(kept));
    AlphabeticIsData(Body(kept));
    BodyKeepsData(kept);
    SkippingKeepsData(t);
    BodyKeepsData(t);
  }

  lemma EstimateGap(d: nat, x: nat, b: nat)
    requires b == d * 6 / 8 && d % 4 != 1
    ensures (d + x) * 6 / 8 == b <==> x == 0 || (x == 1 && b % 3 == 0)
  {
    var q := d / 4;
    if d == 4 * q {
      assert b == 3 * q;
    } else if d == 4 * q + 2 {
      assert b == 3 * q + 1;
    } else {
      assert d == 4 * q + 3 && b == 3 * q + 2;
    }
  }

  /** On every payload the client accepts, line-wrapped ones included: once the trailing `=` are
      stripped, each line break or `=` that is left counts as data. The estimate is right exactly
      when none is left, or just one and the content fills its groups of three. */
  lemma EstimateIsExact(t: string)
    requires DecodeSkippingNewlines(t).Some?
    ensures var b := |DecodeSkippingNewlines(t).value|;
            EstimatedLen(t) == b <==> Marks(Body(t)) == 0 || (Marks(Body(t)) == 1 && b % 3 == 0)
  {
    var d, b := AcceptedData(t);
    DataAndMarks(Body(t));
    EstimateGap(d, Marks(Body(t)), b);
  }

  lemma NewlineDecodes(s: seq<byte>)
    ensures DecodeSkippingNewlines(Encode(s) + ['\n']) == Some(s)
  {
    var keep := (c: char) => c != '\n' && c != '\r';
    FilterSnoc(keep, Encode(s), '\n');
    FilterAll(keep, Encode(s));
    assert Filter(keep, Encode(s) + ['\n']) == Encode(s);
    DecodeEncode(s);
  }

  lemma OneCharacterMore(n: nat)
    ensures ((n + 2) / 3 * 4 + 1) * 6 / 8 == n + Shortfall(n)
  {
    var q := (n + 2) / 3;
    assert (4 * q + 1) * 6 / 8 == 3 * q;
  }

  /** For instance a final line break hides the padding, so that the bytes missing from the last
      group are counted too: a payload of one byte is announced as three. */
  lemma EstimateWithTrailingNewline(s: seq<byte>)
    ensures var t := Encode(s) + ['\n'];
            DecodeSkippingNewlines(t) == Some(s) && EstimatedLen(t) == |s| + Shortfall(|s|)
  {
    NewlineDecodes(s);
    EncodeLength(s);
    OneCharacterMore(|s|);
  }

  const UPPER := "ABCDEFGHIJKLMNOPQRSTUVWXYZ"
  const LOWER := "abcdefghijklmnopqrstuvwxyz"
  const NUMERALS := "0123456789"

  /** Table 1 of RFC 4648. */
  lemma AlphabetIsStandard(v: sextet)
    ensures Symbol(v) == if v < 26 then UPPER[v] else if v < 52 then LOWER[v - 26]
                         else if v < 62 then NUMERALS[v - 52] else if v == 62 then '+' else '/'
  {
  }

  /** Test vectors of section 10 of RFC 4648 ("foob" and "fooba"), which pin the alphabet and the
      padding. */
  lemma TestVectors()
    ensures Encode([102, 111, 111, 98]) == "Zm9vYg=="
    ensures Encode([102, 111, 111, 98, 97]) == "Zm9vYmE="
  {
    var a: seq<byte> := [102, 111, 111, 98];
    assert a[3..] == [98];
    assert Sextets(a) == [25, 38, 61, 47, 24, 32];
    var b: seq<byte> := [102, 111, 111, 98, 97];
    assert b[3..] == [98, 97];
    assert Sextets(b) == [25, 38, 61, 47, 24, 38, 4];
  }
}
