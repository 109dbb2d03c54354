/** One line of the activity log (client/commanddetail.go): whatever the harness sends is folded
    onto one line, stripped of control characters and cut to a readable length. */
module LogLine {
  import opened Common
  import opened Unicode

  const MAX_RUNES := 400
  const BREAK_MARK := " \\n "  // four visible characters, not a line break

  /** What the fold makes of one character. */
  datatype Kind = Break | Space | Dropped | Kept

  function KindOf(c: char): Kind {
    if c == '\n' || c == '\r' then Break
    else if IsSpace(c) then Space
    else if c == REPLACEMENT || IsControl(c) then Dropped
    else Kept
  }

  /** The blanks seen since the last character kept. */
  datatype Gap = Nothing | Blank | Line

  function Mark(g: Gap): string {
    match g
    case Nothing => ""
    case Blank => " "
    case Line => BREAK_MARK
  }

  datatype Fold = Fold(text: string, gap: Gap)

  /** The text folded so far, and the gap that a next character would close. */
  function Folded(s: string): Fold {
    if s == "" then Fold("", Nothing)
    else
      var f, c := Folded(s[..|s| - 1]), s[|s| - 1];
      match KindOf(c)
      case Break => f.(gap := if f.text == "" then Nothing else Line)
      case Space => f.(gap := if f.text == "" then Nothing else if f.gap.Line? then Line else Blank)
      case Dropped => f
      case Kept => Fold(f.text + Mark(f.gap) + [c], Nothing)
  }

  function Suffix(dropped: nat): string {
    "… (+" + Digits(dropped) + " caractères)"
  }

  function Truncated(s: string, limit: int): string {
    if limit <= 0 || |s| <= limit then s else s[..limit] + Suffix(|s| - limit)
  }

  function Sanitized(s: string): string {
    Truncated(Folded(s).text, MAX_RUNES)
  }

  method SanitizeLogLine(s: string) returns (r: string)
    ensures r == Sanitized(s)
  {
    var b, pendingSpace, pendingBreak := "", false, false;
    for i := 0 to |s|
      invariant Folded(s[..i]) == Fold(b, if pendingBreak then Line else if pendingSpace then Blank else Nothing)
      invariant b == "" ==> !pendingBreak && !pendingSpace
    {
      var c := s[i];
      assert s[..i + 1][..i] == s[..i];
      if c == '\n' || c == '\r' {
        pendingBreak := |b| > 0;
      } else if IsSpace(c) {
        pendingSpace := |b| > 0;
      } else if c == REPLACEMENT || IsControl(c) {
      } else {
        if pendingBreak {
          b := b + BREAK_MARK;
        } else if pendingSpace {
          b := b + " ";
        }
        pendingSpace, pendingBreak := false, false;
        b := b + [c];
      }
    }
    assert s[..|s|] == s;
    r := Truncated(b, MAX_RUNES);
  }

  // ----- The normal form -----

  /** Neither white space nor a control character, nor what stands for bytes that are no text. */
  predicate IsPrintable(c: char) {
    !IsSpace(c) && !IsControl(c) && c != REPLACEMENT
  }

  predicate IsPlain(c: char) {
    c == ' ' || IsPrintable(c)
  }

  /** Printable characters and single spaces, and no space at either end. */
  ghost predicate IsNormal(t: string) {
    && (forall i :: 0 <= i < |t| ==> IsPlain(t[i]))
    && (forall i :: 0 <= i < |t| - 1 ==> t[i] != ' ' || t[i + 1] != ' ')
    && (t != "" ==> t[0] != ' ' && t[|t| - 1] != ' ')
  }

  lemma PrintableIsKept(c: char)
    ensures IsPrintable(c) <==> KindOf(c) == Kept
  {
  }

  lemma MarkedIsNormal(t: string, g: Gap, c: char)
    requires IsNormal(t) && (t == "" ==> g.Nothing?) && IsPrintable(c)
    ensures IsNormal(t + Mark(g) + [c])
  {
    assert IsPrintable('\\') && IsPrintable('n');
  }

  lemma {:induction false} FoldedIsNormal(s: string)
    ensures IsNormal(Folded(s).text) && (Folded(s).text == "" ==> Folded(s).gap.Nothing?)
  {
    if s != "" {
      FoldedIsNormal(s[..|s| - 1]);
      var f, c := Folded(s[..|s| - 1]), s[|s| - 1];
      if KindOf(c) == Kept {
        MarkedIsNormal(f.text, f.gap, c);
      }
    }
  }

  lemma SuffixIsPlain(n: nat, i: nat)
    requires i < |Suffix(n)|
    ensures IsPrintable(Suffix(n)[i]) || i == 1 || i == |Suffix(n)| - 12
    ensures IsPlain(Suffix(n)[i])
  {
    var head, tail := "… (+", " caractères)";
    assert forall k :: 0 <= k < |head| ==> IsPlain(head[k]);
    assert forall k :: 0 <= k < |tail| ==> IsPlain(tail[k]);
    if |head| <= i < |head| + |Digits(n)| {
      DigitsAreDigits(n, i - |head|);
    }
  }

  /** Whatever comes in, the line has no control or line-break character, no space at either end,
      and no two spaces in a row. */
  lemma SanitizedIsNormal(s: string)
    ensures IsNormal(Sanitized(s))
    ensures forall c <- Sanitized(s) :: c as int >= 32 && !(127 <= c as int < 160) && c != '\U{FFFD}'
  {
    var t := Folded(s).text;
    FoldedIsNormal(s);
    if |t| > MAX_RUNES {
      var n := |t| - MAX_RUNES;
      var r := Sanitized(s);
      forall i | 0 <= i < |r|
        ensures IsPlain(r[i]) && (i > 0 ==> r[i - 1] != ' ' || r[i] != ' ')
      {
        if i >= MAX_RUNES {
          SuffixIsPlain(n, i - MAX_RUNES);
          if i > MAX_RUNES {
            SuffixIsPlain(n, i - 1 - MAX_RUNES);
          }
        }
      }
      assert r[|r| - 1] == ')';
    }
  }

  // ----- Folding again -----

  /** A normal text and its beginnings fold to themselves, but for a space left pending. */
  lemma {:induction false} NormalPrefixFolds(t: string, n: nat)
    requires IsNormal(t) && n <= |t|
    ensures Folded(t[..n]) == if n > 0 && t[n - 1] == ' ' then Fold(t[..n - 1], Blank) else Fold(t[..n], Nothing)
  {
    if n > 0 {
      NormalPrefixFolds(t, n - 1);
      assert t[..n][..n - 1] == t[..n - 1];
      var c := t[n - 1];
      assert c == ' ' ==> n - 1 > 0 && t[n - 2] != ' ' && t[..n - 1] != "";
      assert IsPlain(t[n - 1]);
      PrintableIsKept(c);
      if c != ' ' && n > 1 && t[n - 2] == ' ' {
        assert t[..n - 2] + " " + [c] == t[..n];
      }
    }
  }

  /** Exactly the normal texts fold to themselves. */
  lemma NormalFolds(t: string)
    ensures Folded(t).text == t <==> IsNormal(t)
  {
    FoldedIsNormal(t);
    if IsNormal(t) {
      NormalPrefixFolds(t, |t|);
      assert t[..|t|] == t;
    }
  }

  /** What is sanitised already is only cut again. */
  lemma OnlyCutAgain(s: string, r: string)
    requires r == Sanitized(s)
    ensures Sanitized(r) == Truncated(r, MAX_RUNES)
  {
    SanitizedIsNormal(s);
    NormalFolds(r);
  }

  lemma CutAgain(t: string, r: string, u: string)
    requires r == Truncated(t, MAX_RUNES) && u == Truncated(r, MAX_RUNES)
    ensures u == r <==> |t| <= MAX_RUNES || |t| == MAX_RUNES + 18
  {
    if |t| > MAX_RUNES {
      TruncatedTwice(t);
      SuffixLength(|t| - MAX_RUNES);
    }
  }

  /** Sanitising a line again gives the same line, exactly when it was not cut, or when what was
      cut is as long as the note that says so: eighteen characters. */
  lemma SanitizedTwice(s: string)
    ensures Sanitized(Sanitized(s)) == Sanitized(s) <==>
            |Folded(s).text| <= MAX_RUNES || |Folded(s).text| == MAX_RUNES + 18
  {
    var t, r := Folded(s).text, Sanitized(s);
    OnlyCutAgain(s, r);
    CutAgain(t, r, Sanitized(r));
  }

  /** For instance, a line of 401 letters is cut by one, and cut again the second time. */
  lemma CutTwice(s: string)
    requires s == seq(401, _ => 'a')
    ensures Sanitized(Sanitized(s)) != Sanitized(s)
  {
    assert IsNormal(s);
    NormalFolds(s);
    SanitizedTwice(s);
  }

  lemma SameEnd(front: string, a: string, b: string)
    ensures front + a == front + b <==> a == b
  {
    assert (front + a)[|front|..] == a && (front + b)[|front|..] == b;
  }

  lemma TruncatedTwice(t: string)
    requires |t| > MAX_RUNES
    ensures var r, n := Truncated(t, MAX_RUNES), |t| - MAX_RUNES;
            Truncated(r, MAX_RUNES) == r <==> n == |Suffix(n)|
  {
    var front, end := t[..MAX_RUNES], Suffix(|t| - MAX_RUNES);
    assert Truncated(t, MAX_RUNES) == front + end;
    assert (front + end)[..MAX_RUNES] == front;
    SameEnd(front, end, Suffix(|end|));
    SameSuffix(|t| - MAX_RUNES, |end|);
  }

  lemma SameSuffix(a: nat, b: nat)
    ensures Suffix(a) == Suffix(b) <==> a == b
  {
    if Suffix(a) == Suffix(b) {
      assert Digits(a) == Suffix(a)[4..|Suffix(a)| - 12];
      assert Digits(b) == Suffix(b)[4..|Suffix(b)| - 12];
      DigitsInjective(a, b);
    }
  }

  lemma SuffixLength(n: nat)
    ensures |Suffix(n)| == 16 + |Digits(n)|
    ensures |Suffix(n)| == n <==> n == 18
  {
    if n >= 100 {
      DigitsAreFew(n);
    } else if n >= 10 {
      assert |Digits(n / 10)| == 1;
    }
  }

  // ----- Nothing printable is lost or moved -----

  /** The printable characters, in order. */
  function Printable(s: string): string {
    if s == "" then ""
    else if IsPrintable(s[|s| - 1]) then Printable(s[..|s| - 1]) + [s[|s| - 1]]
    else Printable(s[..|s| - 1])
  }

  /** What follows the last printable character. */
  function Tail(s: string): string {
    if s == "" || IsPrintable(s[|s| - 1]) then "" else Tail(s[..|s| - 1]) + [s[|s| - 1]]
  }

  /** What separates two printable characters, given all that stood between them. */
  function GapOf(between: string): Gap {
    if exists i :: 0 <= i < |between| && (between[i] == '\n' || between[i] == '\r') then Line
    else if exists i :: 0 <= i < |between| && IsSpace(between[i]) then Blank
    else Nothing
  }

  /** The printable characters of `s`, each after the mark of what stood before it. */
  function Marked(s: string): string {
    if s == "" then ""
    else
      var front, c := s[..|s| - 1], s[|s| - 1];
      if !IsPrintable(c) then Marked(front)
      else if Printable(front) == "" then [c]
      else Marked(front) + Mark(GapOf(Tail(front))) + [c]
  }

  lemma GapSnoc(between: string, c: char)
    ensures GapOf(between + [c]) ==
            match KindOf(c)
            case Break => Line
            case Space => if GapOf(between).Line? then Line else Blank
            case _ => GapOf(between)
  {
    var t := between + [c];
    assert t[|between|] == c;
    assert forall i :: 0 <= i < |between| ==> t[i] == between[i];
  }

  /** The fold is the printable characters in their order, with one mark where a line break stood
      between two of them, else one space where a blank did, and nothing else. */
  lemma {:induction false} FoldedIsMarked(s: string)
    ensures Folded(s).text == Marked(s)
    ensures Folded(s).text == "" <==> Printable(s) == ""
    ensures Folded(s).gap == if Printable(s) == "" then Nothing else GapOf(Tail(s))
  {
    if s != "" {
      var front, c := s[..|s| - 1], s[|s| - 1];
      FoldedIsMarked(front);
      GapSnoc(Tail(front), c);
    }
  }

  /** So a line keeps the printable characters in order, up to the cut. */
  lemma SanitizedKeepsOrder(s: string)
    ensures if |Marked(s)| <= 400 then Sanitized(s) == Marked(s)
            else Sanitized(s) == Marked(s)[..400] + "… (+" + Digits(|Marked(s)| - 400) + " caractères)"
  {
    FoldedIsMarked(s);
    if |Marked(s)| > 400 {
      var n := |Marked(s)| - 400;
      assert Suffix(n) == "… (+" + Digits(n) + " caractères)";
      Regroup(Marked(s)[..400], "… (+", Digits(n));
      Regroup(Marked(s)[..400], "… (+" + Digits(n), " caractères)");
    }
  }

  // ----- Two words -----

  /** Only white space, control characters and what stands for no text. */
  predicate IsFiller(t: string) {
    forall i :: 0 <= i < |t| ==> !IsPrintable(t[i])
  }

  predicate HasBreak(t: string) {
    exists i :: 0 <= i < |t| && (t[i] == '\n' || t[i] == '\r')
  }

  predicate HasSpace(t: string) {
    exists i :: 0 <= i < |t| && IsSpace(t[i])
  }

  lemma SpacesAreGaps(t: string)
    ensures GapOf(t) == if HasBreak(t) then Line else if HasSpace(t) then Blank else Nothing
  {
  }

  lemma FoldSnoc(s: string, c: char)
    ensures Folded(s + [c]) ==
            match KindOf(c)
            case Break => Folded(s).(gap := if Folded(s).text == "" then Nothing else Line)
            case Space =>
              Folded(s).(gap := if Folded(s).text == "" then Nothing else if Folded(s).gap.Line? then Line else Blank)
            case Dropped => Folded(s)
            case Kept => Fold(Folded(s).text + Mark(Folded(s).gap) + [c], Nothing)
  {
    assert (s + [c])[..|s|] == s;
  }

  lemma {:induction false} FillerFolds(a: string, t: string)
    requires IsFiller(t) && Folded(a).text != "" && Folded(a).gap.Nothing?
    ensures Folded(a + t) == Fold(Folded(a).text, GapOf(t))
  {
    if t == "" {
      assert a + t == a;
    } else {
      var front, c := t[..|t| - 1], t[|t| - 1];
      FillerFolds(a, front);
      FoldSnoc(a + front, c);
      GapSnoc(front, c);
      assert a + t == (a + front) + [c] && t == front + [c];
      PrintableIsKept(c);
    }
  }

  lemma {:induction false} WordFolds(a: string, w: string)
    requires w != "" && forall i :: 0 <= i < |w| ==> IsPrintable(w[i])
    ensures Folded(a + w) == Fold(Folded(a).text + Mark(Folded(a).gap) + w, Nothing)
  {
    var front, c := w[..|w| - 1], w[|w| - 1];
    assert IsPrintable(w[|w| - 1]);
    PrintableIsKept(c);
    FoldSnoc(a + front, c);
    assert a + w == (a + front) + [c] && w == front + [c];
    if front == "" {
      assert a + front == a;
    } else {
      WordFolds(a, front);
      Regroup(Folded(a).text + Mark(Folded(a).gap), front, [c]);
    }
  }

  lemma WordsFold(a: string, between: string, b: string)
    requires a != "" && b != "" && IsFiller(between)
    requires (forall i :: 0 <= i < |a| ==> IsPrintable(a[i])) && forall i :: 0 <= i < |b| ==> IsPrintable(b[i])
    ensures Folded(a + between + b).text == a + Mark(GapOf(between)) + b
  {
    WordFolds("", a);
    assert Folded("") == Fold("", Nothing) && "" + a == a && "" + "" + a == a;
    FillerFolds(a, between);
    WordFolds(a + between, b);
  }

  /** Two words with anything in between: a visible mark where a line ended, else one space, else
      nothing. */
  lemma TwoWords(a: string, between: string, b: string)
    requires a != "" && b != "" && IsFiller(between) && |a| + |b| <= 396
    requires (forall i :: 0 <= i < |a| ==> IsPrintable(a[i])) && forall i :: 0 <= i < |b| ==> IsPrintable(b[i])
    ensures Sanitized(a + between + b) ==
            a + (if HasBreak(between) then " \\n " else if HasSpace(between) then " " else "") + b
  {
    WordsFold(a, between, b);
    SpacesAreGaps(between);
  }
}
