/** What the audit log takes for granted can be had: a codec that satisfies every law of Audit. It
    spells a record in two letters between braces, and uses the text itself as the hash. */
module AuditWitness {
  import opened Common
  import opened Audit

  // ----- A record as numbers -----

  function StringNumbers(s: string): seq<nat> {
    [|s|] + Map((c: char) => c as nat, s)
  }

  function TagOf(v: Json): nat {
    if v.Str? then 0 else 1
  }

  function ContentOf(v: Json): string {
    match v
    case Str(s) => s
    case Other(t) => t
  }

  function JsonNumbers(v: Json): seq<nat> {
    [TagOf(v)] + StringNumbers(ContentOf(v))
  }

  ghost function Pick(f: Fields): (key: string)
    requires f != map[]
    ensures key in f
  {
    var key :| key in f;
    key
  }

  ghost function Numbers(f: Fields): seq<nat>
    decreases |f|
  {
    if f == map[] then []
    else
      var key := Pick(f);
      StringNumbers(key) + (JsonNumbers(f[key]) + Numbers(f - {key}))
  }

  lemma StringIsRead(a: string, b: string, x: seq<nat>, y: seq<nat>)
    requires StringNumbers(a) + x == StringNumbers(b) + y
    ensures a == b && x == y
  {
    var s, t := StringNumbers(a) + x, StringNumbers(b) + y;
    assert s[0] == |a| && t[0] == |b|;
    forall i | 0 <= i < |a|
      ensures a[i] == b[i]
    {
      assert s[i + 1] == a[i] as nat && t[i + 1] == b[i] as nat;
    }
    assert x == s[|a| + 1..] && y == t[|b| + 1..];
  }

  lemma HeadIsRead(m: nat, n: nat, x: seq<nat>, y: seq<nat>)
    requires [m] + x == [n] + y
    ensures m == n && x == y
  {
    assert ([m] + x)[0] == ([n] + y)[0];
    assert ([m] + x)[1..] == x && ([n] + y)[1..] == y;
  }

  lemma JsonIsRead(a: Json, b: Json, x: seq<nat>, y: seq<nat>)
    requires JsonNumbers(a) + x == JsonNumbers(b) + y
    ensures a == b && x == y
  {
    var s, t := StringNumbers(ContentOf(a)), StringNumbers(ContentOf(b));
    Regroup([TagOf(a)], s, x);
    Regroup([TagOf(b)], t, y);
    HeadIsRead(TagOf(a), TagOf(b), s + x, t + y);
    StringIsRead(ContentOf(a), ContentOf(b), x, y);
  }

  lemma {:induction false} NumbersAreRead(f: Fields, g: Fields)
    requires Numbers(f) == Numbers(g)
    ensures f == g
    decreases |f|
  {
    if f != map[] && g != map[] {
      var k, l := Pick(f), Pick(g);
      StringIsRead(k, l, JsonNumbers(f[k]) + Numbers(f - {k}), JsonNumbers(g[l]) + Numbers(g - {l}));
      JsonIsRead(f[k], g[l], Numbers(f - {k}), Numbers(g - {l}));
      NumbersAreRead(f - {k}, g - {k});
      assert f == (f - {k})[k := f[k]] && g == (g - {k})[k := g[k]];
    }
  }

  /** A record is longer than any text in it. */
  lemma {:induction false} NumbersAreMany(f: Fields, key: string, s: string)
    requires key in f && f[key] == Str(s)
    ensures |Numbers(f)| > |s|
    decreases |f|
  {
    var k := Pick(f);
    if k != key {
      NumbersAreMany(f - {k}, key, s);
    }
  }

  // ----- Numbers as text -----

  function Unary(n: nat): string {
    if n == 0 then "b" else "a" + Unary(n - 1)
  }

  function Spell(numbers: seq<nat>): string {
    if numbers == [] then "" else Unary(numbers[0]) + Spell(numbers[1..])
  }

  predicate IsPlain(t: string) {
    forall i :: 0 <= i < |t| ==> t[i] == 'a' || t[i] == 'b'
  }

  lemma {:induction false} UnaryIsRead(m: nat, n: nat, x: string, y: string)
    requires Unary(m) + x == Unary(n) + y
    ensures m == n && x == y
  {
    var s, t := Unary(m) + x, Unary(n) + y;
    assert s[0] == t[0];
    if m == 0 {
      assert s[1..] == x && t[1..] == y;
    } else {
      assert s[1..] == Unary(m - 1) + x && t[1..] == Unary(n - 1) + y;
      UnaryIsRead(m - 1, n - 1, x, y);
    }
  }

  lemma {:induction false} SpellingIsRead(a: seq<nat>, b: seq<nat>)
    requires Spell(a) == Spell(b)
    ensures a == b
  {
    if a != [] && b != [] {
      UnaryIsRead(a[0], b[0], Spell(a[1..]), Spell(b[1..]));
      SpellingIsRead(a[1..], b[1..]);
      assert a == [a[0]] + a[1..] && b == [b[0]] + b[1..];
    } else if a != [] {
      UnaryIsPlain(a[0]);
    } else if b != [] {
      UnaryIsPlain(b[0]);
    }
  }

  lemma {:induction false} UnaryIsPlain(n: nat)
    ensures IsPlain(Unary(n)) && Unary(n) != ""
  {
    if n > 0 {
      UnaryIsPlain(n - 1);
    }
  }

  lemma {:induction false} SpellingIsPlain(numbers: seq<nat>)
    ensures IsPlain(Spell(numbers)) && |Spell(numbers)| >= |numbers|
  {
    if numbers != [] {
      UnaryIsPlain(numbers[0]);
      SpellingIsPlain(numbers[1..]);
    }
  }

  // ----- The codec -----

  ghost function Text(f: Fields): string {
    "{" + Spell(Numbers(f)) + "}"
  }

  ghost function Parse(t: string): Parsed {
    if t == "" then Blank
    else if exists f :: Text(f) == t then
      var f :| Text(f) == t;
      Record(f)
    else Invalid
  }

  ghost function Example(): Codec {
    Codec(f => Text(f), f => Text(f), t => Parse(t))
  }

  /** Braces stand at both ends and nowhere else. */
  lemma TextIsBraced(f: Fields)
    ensures var t := Text(f);
            && |t| >= 2 && t[0] == '{' && t[|t| - 1] == '}'
            && forall i :: 0 < i < |t| - 1 ==> t[i] == 'a' || t[i] == 'b'
  {
    SpellingIsPlain(Numbers(f));
    assert forall i :: 0 < i < |Text(f)| - 1 ==> Text(f)[i] == Spell(Numbers(f))[i - 1];
  }

  lemma TextIsRead(f: Fields, g: Fields)
    requires Text(f) == Text(g)
    ensures f == g
  {
    assert Text(f)[1..|Text(f)| - 1] == Spell(Numbers(f));
    assert Text(g)[1..|Text(g)| - 1] == Spell(Numbers(g));
    SpellingIsRead(Numbers(f), Numbers(g));
    NumbersAreRead(f, g);
  }

  lemma {:induction false} ZerosHaveNoBrace(n: nat)
    ensures '{' !in Zeros(n)
  {
    if n > 0 {
      ZerosHaveNoBrace(n - 1);
    }
  }

  lemma HashIsIdeal()
    ensures IdealHash(Example())
  {
    var j := Example();
    forall a, b | j.hash(a) == j.hash(b)
      ensures a == b
    {
      TextIsRead(a, b);
    }
    forall a
      ensures j.hash(a) != GENESIS && j.hash(a) != "" && Field(a, "prev_hash") != Some(Str(j.hash(a)))
    {
      TextIsBraced(a);
      ZerosHaveNoBrace(64);
      assert Text(a)[0] in Text(a);
      if Field(a, "prev_hash") == Some(Str(Text(a))) {
        NumbersAreMany(a, "prev_hash", Text(a));
        SpellingIsPlain(Numbers(a));
      }
    }
  }

  lemma TextReadsBack(f: Fields)
    ensures IsReadBack(Example(), f)
  {
    TextIsBraced(f);
    var g :| Text(g) == Text(f) && Parse(Text(f)) == Record(g);
    TextIsRead(f, g);
  }

  /** Text that does not end with its only closing brace, or has an opening one inside, is no record's. */
  lemma NotARecord(t: string)
    requires t != ""
    requires t[|t| - 1] != '}' || exists i :: 0 < i < |t| && t[i] == '{'
    ensures Parse(t) == Invalid
  {
    if f :| Text(f) == t {
      TextIsBraced(f);
    }
  }

  lemma TornIsInvalid(t: string)
    requires IsTorn(Example(), t)
    ensures Parse(t) == Invalid
  {
    var f :| t < Text(f);
    TextIsBraced(f);
    assert t[|t| - 1] == Text(f)[|t| - 1];
    NotARecord(t);
  }

  lemma PieceStarts(t: string)
    requires IsPiece(Example(), t)
    ensures t != "" && t[0] == '{'
  {
    var f :| IsOrdinary(f) && t <= Text(f);
    TextIsBraced(f);
  }

  lemma PiecesAreInvalid(pieces: seq<string>)
    requires |pieces| >= 2 && ArePieces(Example(), pieces)
    ensures Parse(Concat(pieces)) == Invalid
  {
    var front, last := pieces[..|pieces| - 1], pieces[|pieces| - 1];
    PieceStarts(last);
    PieceStarts(pieces[|pieces| - 2]);
    assert front[|front| - 1] == pieces[|pieces| - 2];
    assert |Concat(front)| > 0;
    assert Concat(pieces)[|Concat(front)|] == '{';
    NotARecord(Concat(pieces));
  }

  /** Such a codec exists, so what is proved of every lawful one is not empty. */
  lemma ExampleIsLawful()
    ensures Lawful(Example())
  {
    var j := Example();
    HashIsIdeal();
    forall f
      ensures IsReadBack(j, f)
    {
      TextReadsBack(f);
    }
    forall t | IsTorn(j, t)
      ensures j.parse(t) == Invalid
    {
      TornIsInvalid(t);
    }
    forall pieces | |pieces| >= 2 && ArePieces(j, pieces)
      ensures j.parse(Concat(pieces)) == Invalid
    {
      PiecesAreInvalid(pieces);
    }
  }
}
