/** UTF-8 as Go turns bytes into JSON text: nothing is refused, and every byte that is no part of a
    well-formed character becomes a replacement character of its own. A stream that is cut into
    pieces, each decoded alone, then reads the same exactly when no cut falls inside a character. */
module LenientUtf8 {
  import opened Common
  import opened Unicode
  import opened Utf8

  /** How many bytes the next character takes; a byte that starts none counts for itself. */
  function Width(s: seq<byte>): (n: nat)
    requires s != []
    ensures 0 < n <= |s|
  {
    match First(s) case Some((_, n)) => n case None => 1
  }

  function Read(s: seq<byte>): char
    requires s != []
  {
    match First(s) case Some((c, _)) => c case None => REPLACEMENT
  }

  function Lenient(s: seq<byte>): string {
    if s == [] then "" else [Read(s)] + Lenient(s[Width(s)..])
  }

  /** No character reaches across position `k`. */
  predicate IsEdge(s: seq<byte>, k: nat) {
    k == 0 || (s != [] && k >= Width(s) && IsEdge(s[Width(s)..], k - Width(s)))
  }

  /** Each piece decoded alone, end to end. */
  function LenientAll(pieces: seq<seq<byte>>): string {
    if pieces == [] then "" else LenientAll(pieces[..|pieces| - 1]) + Lenient(pieces[|pieces| - 1])
  }

  /** Where piece number `i` starts. */
  function CutAt(pieces: seq<seq<byte>>, i: nat): nat
    requires i <= |pieces|
  {
    |Concat(pieces[..i])|
  }

  ghost predicate CutsAtEdges(pieces: seq<seq<byte>>) {
    forall i {:trigger CutAt(pieces, i)} :: 0 <= i <= |pieces| ==> IsEdge(Concat(pieces), CutAt(pieces, i))
  }

  // ----- One cut -----

  /** A character is read from its own bytes. */
  lemma FirstOfFront(a: seq<byte>, b: seq<byte>)
    requires a != [] && Width(a + b) <= |a|
    ensures First(a) == First(a + b)
  {
    assert forall i :: 0 <= i < |a| ==> (a + b)[i] == a[i];
  }

  lemma ReadFront(a: seq<byte>, b: seq<byte>)
    requires a != [] && Width(a + b) <= |a|
    ensures Width(a) == Width(a + b) && Read(a) == Read(a + b)
    ensures (a + b)[Width(a + b)..] == a[Width(a)..] + b
  {
    FirstOfFront(a, b);
  }

  /** A character that reaches past `a`: neither part of it starts a character. */
  lemma FirstOfTorn(a: seq<byte>, b: seq<byte>)
    requires a != [] && Width(a + b) > |a|
    ensures First(a).None?
    ensures forall i :: 0 < i < Width(a + b) ==> IsLow(a + b, i)
  {
    if First(a).Some? {
      FirstStays(a, b);
    }
  }

  lemma {:induction false} LowRun(s: seq<byte>, m: nat)
    requires m <= |s| && forall i :: 0 <= i < m ==> IsLow(s, i)
    ensures |Lenient(s)| == m + |Lenient(s[m..])|
  {
    if m == 0 {
      assert s[0..] == s;
    } else {
      assert IsLow(s, 0);
      assert First(s).None?;
      forall i | 0 <= i < m - 1
        ensures IsLow(s[1..], i)
      {
        assert IsLow(s, i + 1);
      }
      LowRun(s[1..], m - 1);
      assert s[1..][m - 1..] == s[m..];
    }
  }

  /** So each of its bytes is replaced. */
  lemma TornIsReplaced(a: seq<byte>, b: seq<byte>, w: nat)
    requires a != [] && w == Width(a + b) > |a|
    ensures |Lenient(a)| == |a| && |Lenient(b)| == w - |a| + |Lenient((a + b)[w..])|
  {
    FirstOfTorn(a, b);
    var t := a[1..];
    forall i | 0 <= i < |t|
      ensures IsLow(t, i)
    {
      assert IsLow(a + b, i + 1);
    }
    LowRun(t, |t|);
    assert t[|t|..] == [];
    forall i | 0 <= i < w - |a|
      ensures IsLow(b, i)
    {
      assert IsLow(a + b, |a| + i);
    }
    LowRun(b, w - |a|);
    assert b[w - |a|..] == (a + b)[w..];
  }

  /** Decoding the two parts of a cut alone never gives less text, and gives the same text exactly
      when the cut is at an edge. */
  lemma {:induction false} OneCut(a: seq<byte>, b: seq<byte>)
    ensures |Lenient(a)| + |Lenient(b)| >= |Lenient(a + b)|
    ensures |Lenient(a)| + |Lenient(b)| == |Lenient(a + b)| <==> IsEdge(a + b, |a|)
    ensures IsEdge(a + b, |a|) ==> Lenient(a) + Lenient(b) == Lenient(a + b)
    decreases |a|
  {
    if a == [] {
      assert a + b == b;
    } else {
      var w := Width(a + b);
      if w <= |a| {
        ReadFront(a, b);
        OneCut(a[w..], b);
        Regroup([Read(a)], Lenient(a[w..]), Lenient(b));
      } else {
        TornIsReplaced(a, b, w);
      }
    }
  }

  /** Edges before an edge are those of what stands before it. */
  lemma {:induction false} EdgesBefore(a: seq<byte>, b: seq<byte>, k: nat)
    requires k <= |a| && IsEdge(a + b, |a|)
    ensures IsEdge(a + b, k) <==> IsEdge(a, k)
    decreases |a|
  {
    if a != [] && k > 0 {
      ReadFront(a, b);
      var w := Width(a);
      if k >= w {
        EdgesBefore(a[w..], b, k - w);
      }
    }
  }

  // ----- Any number of cuts -----

  lemma CutBefore(pieces: seq<seq<byte>>, i: nat)
    requires pieces != [] && i < |pieces|
    ensures CutAt(pieces, i) == CutAt(pieces[..|pieces| - 1], i) <= |Concat(pieces[..|pieces| - 1])|
    ensures CutAt(pieces, |pieces| - 1) == |Concat(pieces[..|pieces| - 1])|
    ensures CutAt(pieces, |pieces|) == |Concat(pieces)|
  {
    var front := pieces[..|pieces| - 1];
    assert pieces[..i] == front[..i] && pieces[..|pieces|] == pieces;
    assert front == front[..i] + front[i..];
    ConcatAppend(front[..i], front[i..]);
  }

  lemma {:induction false} EndIsEdge(s: seq<byte>)
    ensures IsEdge(s, |s|)
  {
    if s != [] {
      EndIsEdge(s[Width(s)..]);
    }
  }

  /** All the cuts are at edges when the last one is and those before it are in what they cut. */
  lemma LastCutIsEdge(pieces: seq<seq<byte>>, front: seq<seq<byte>>, last: seq<byte>)
    requires pieces != [] && front == pieces[..|pieces| - 1] && last == pieces[|pieces| - 1]
    ensures CutsAtEdges(pieces) <==> CutsAtEdges(front) && IsEdge(Concat(front) + last, |Concat(front)|)
  {
    var all := Concat(front);
    assert Concat(pieces) == all + last;
    EndIsEdge(all + last);
    CutBefore(pieces, |pieces| - 1);
    if IsEdge(all + last, |all|) {
      forall i: nat | i <= |front|
        ensures CutAt(pieces, i) == CutAt(front, i)
        ensures IsEdge(all + last, CutAt(pieces, i)) <==> IsEdge(all, CutAt(front, i))
      {
        CutBefore(pieces, i);
        EdgesBefore(all, last, CutAt(front, i));
      }
    } else {
      assert !IsEdge(Concat(pieces), CutAt(pieces, |pieces| - 1));
    }
  }

  lemma {:induction false} ManyCuts(pieces: seq<seq<byte>>)
    ensures |LenientAll(pieces)| >= |Lenient(Concat(pieces))|
    ensures |LenientAll(pieces)| == |Lenient(Concat(pieces))| <==> CutsAtEdges(pieces)
    ensures CutsAtEdges(pieces) ==> LenientAll(pieces) == Lenient(Concat(pieces))
  {
    if pieces == [] {
      assert CutAt(pieces, 0) == 0;
    } else {
      var front, last := pieces[..|pieces| - 1], pieces[|pieces| - 1];
      ManyCuts(front);
      OneCut(Concat(front), last);
      LastCutIsEdge(pieces, front, last);
    }
  }

  /** Whatever the bytes: pieces decoded alone read as the whole does if and only if no cut falls
      inside a character, and otherwise there is more text, never less. */
  lemma PiecesReadAsOne(pieces: seq<seq<byte>>)
    ensures LenientAll(pieces) == Lenient(Concat(pieces)) <==> CutsAtEdges(pieces)
    ensures !CutsAtEdges(pieces) ==> |LenientAll(pieces)| > |Lenient(Concat(pieces))|
  {
    ManyCuts(pieces);
  }

  // ----- Well-formed text -----

  lemma WidthOfChar(c: char, rest: seq<byte>)
    ensures Width(EncodeChar(c) + rest) == |EncodeChar(c)| && Read(EncodeChar(c) + rest) == c
    ensures (EncodeChar(c) + rest)[|EncodeChar(c)|..] == rest
  {
    FirstOfChar(c, rest);
  }

  lemma {:induction false} LenientEncode(t: string)
    ensures Lenient(Encode(t)) == t
  {
    if t != "" {
      WidthOfChar(t[0], Encode(t[1..]));
      LenientEncode(t[1..]);
      assert t == [t[0]] + t[1..];
    }
  }

  /** Text is read as it is whatever comes after it. */
  lemma {:induction false} LenientAfter(t: string, rest: seq<byte>)
    ensures Lenient(Encode(t) + rest) == t + Lenient(rest)
  {
    if t == "" {
      assert Encode(t) + rest == rest && "" + Lenient(rest) == Lenient(rest);
    } else {
      var after := Encode(t[1..]) + rest;
      assert Encode(t) + rest == EncodeChar(t[0]) + after;
      WidthOfChar(t[0], after);
      LenientAfter(t[1..], rest);
      assert [t[0]] + (t[1..] + Lenient(rest)) == t + Lenient(rest);
    }
  }

  lemma BoundaryTail(t: string, k: nat)
    requires t != ""
    ensures OnBoundary(t, k) <==> k == 0 || (k >= |EncodeChar(t[0])| && OnBoundary(t[1..], k - |EncodeChar(t[0])|))
  {
    var n := |EncodeChar(t[0])|;
    assert EndsAt(t, 0, 0);
    if i :| EndsAt(t, i, k) {
      if i > 0 {
        EndsAtTail(t, i, k);
        assert EndsAt(t[1..], i - 1, k - n);
      }
    }
    if k >= n && OnBoundary(t[1..], k - n) {
      var i :| EndsAt(t[1..], i, k - n);
      EndsAtTail(t, i + 1, k);
    }
  }

  lemma {:induction false} EdgesOfText(t: string, k: nat)
    ensures IsEdge(Encode(t), k) <==> OnBoundary(t, k)
  {
    if t == "" {
      assert EndsAt(t, 0, 0);
    } else {
      WidthOfChar(t[0], Encode(t[1..]));
      BoundaryTail(t, k);
      if k >= |EncodeChar(t[0])| {
        EdgesOfText(t[1..], k - |EncodeChar(t[0])|);
      }
    }
  }

  /** The pieces of a well-formed text read as the text exactly when each of them ends with a whole
      character. */
  lemma PiecesOfText(t: string, pieces: seq<seq<byte>>)
    requires Concat(pieces) == Encode(t)
    ensures LenientAll(pieces) == t <==> forall i :: 0 <= i <= |pieces| ==> OnBoundary(t, CutAt(pieces, i))
  {
    PiecesReadAsOne(pieces);
    LenientEncode(t);
    forall i: nat | i <= |pieces|
      ensures IsEdge(Concat(pieces), CutAt(pieces, i)) <==> OnBoundary(t, CutAt(pieces, i))
    {
      EdgesOfText(t, CutAt(pieces, i));
    }
  }
}
