/** The command lines of `run_command` as a person writes them: words bare, quoted, escaped or partly
    each, with any blanks around them; what is kept of a backslash; and quotes left open. */
module ArgvLines {
  import opened Common
  import opened Argv

  // ----- Spellings of words -----

  lemma {:induction false} KeptAppend(a: string, ra: seq<Role>, b: string, rb: seq<Role>)
    requires |a| == |ra| && |b| == |rb|
    ensures KeptOf(a + b, ra + rb) == KeptOf(a, ra) + KeptOf(b, rb)
  {
    if a == "" {
      assert a + b == b && ra + rb == rb;
    } else {
      assert (a + b)[1..] == a[1..] + b && (ra + rb)[1..] == ra[1..] + rb;
      KeptAppend(a[1..], ra[1..], b, rb);
      Associates(if ra[0] == Kept then [a[0]] else [], KeptOf(a[1..], ra[1..]), KeptOf(b, rb));
    }
  }

  lemma {:induction false} DanglesAppend(a: string, b: string, m: Mode)
    requires !Dangles(a, m) && !Dangles(b, EndMode(a, m))
    ensures !Dangles(a + b, m)
    decreases |a|
  {
    if a == "" {
      assert a + b == b;
    } else {
      FirstStays(a, b, m);
      DanglesAppend(Rest(a, m), b, First(a, m).mode);
    }
  }

  /** Two spellings written without a blank in between spell one word. */
  lemma SpellingsJoin(a: string, x: string, b: string, y: string)
    requires IsSpelling(a, x) && IsSpelling(b, y)
    ensures IsSpelling(a + b, x + y)
  {
    RolesAppend(a, b, Plain);
    KeptAppend(a, Roles(a, Plain), b, Roles(b, Plain));
    DanglesAppend(a, b, Plain);
  }

  /** A character that is no blank, quote or backslash stands for itself. */
  predicate IsBare(c: char) {
    c != ' ' && c != '\t' && c != '\'' && c != '"' && c != '\\'
  }

  lemma BareSpells(c: char)
    requires IsBare(c)
    ensures IsSpelling([c], [c])
  {
    assert Rest([c], Plain) == "" && Roles([c], Plain) == [Kept];
  }

  lemma {:induction false} BareWordSpells(word: string)
    requires word != "" && forall i :: 0 <= i < |word| ==> IsBare(word[i])
    ensures IsSpelling(word, word)
  {
    BareSpells(word[0]);
    assert word == [word[0]] + word[1..];
    if |word| > 1 {
      BareWordSpells(word[1..]);
      SpellingsJoin([word[0]], [word[0]], word[1..], word[1..]);
    } else {
      assert word == [word[0]];
    }
  }

  /** Inside double quotes a backslash protects nothing but a quote or another backslash. */
  predicate IsVerbatim(word: string) {
    forall i {:trigger IsVerbatimAt(word, i)} :: 0 <= i < |word| ==> IsVerbatimAt(word, i)
  }

  predicate IsVerbatimAt(word: string, i: nat)
    requires i < |word|
  {
    word[i] != '"' && (word[i] == '\\' ==> i + 1 < |word| && word[i + 1] != '\\')
  }

  lemma VerbatimTail(word: string)
    requires word != "" && IsVerbatim(word)
    ensures IsVerbatim(word[1..])
  {
    forall i: nat | i < |word| - 1
      ensures IsVerbatimAt(word[1..], i)
    {
      assert IsVerbatimAt(word, i + 1);
    }
  }

  lemma {:induction false} VerbatimFinishes(word: string)
    requires IsVerbatim(word)
    ensures Finishes(word + "\"", Double, word)
  {
    var s := word + "\"";
    if word == "" {
      ClosingQuote(Double);
      assert s == "\"";
    } else {
      VerbatimTail(word);
      VerbatimFinishes(word[1..]);
      assert IsVerbatimAt(word, 0) && (|word| > 1 ==> IsVerbatimAt(word, 1) && s[1] == word[1]);
      assert s == [word[0]] + (word[1..] + "\"") && s[1..] == word[1..] + "\"";
      assert First(s, Double) == Move([Kept], Double);
      KeptOne(s, Double, word[1..]);
    }
  }

  /** So before any other character it is kept, like everything else between the quotes. */
  lemma VerbatimSpells(word: string)
    requires IsVerbatim(word)
    ensures IsSpelling("\"" + word + "\"", word)
  {
    VerbatimFinishes(word);
    var s := "\"" + word + "\"";
    assert s == "\"" + (word + "\"") && Rest(s, Plain) == word + "\"";
    KeptOne(s, Plain, word);
  }

  /** A backslash at the end of the line has nothing to protect and is kept. */
  lemma LastBackslashIsKept(text: string, word: string)
    requires IsSpelling(text, word)
    ensures Arguments(text + "\\") == Some([word + "\\"])
  {
    var roles := Roles(text, Plain);
    RolesAppend(text, "\\", Plain);
    assert Rest("\\", Plain) == "" && Roles("\\", Plain) == [Kept];
    WordsThrough(text, roles, "\\", [Kept], None);
    WordsOne("\\", Kept, [], Some("" + word));
    assert "" + word == word && "\\"[1..] == "" && [Kept] + [] == [Kept];
  }

  // ----- Lines -----

  predicate IsGap(gap: string) {
    forall i :: 0 <= i < |gap| ==> gap[i] == ' ' || gap[i] == '\t'
  }

  lemma BlankIsSkipped(c: char, line: string)
    requires c == ' ' || c == '\t'
    ensures Arguments([c] + line) == Arguments(line)
  {
    var all := [c] + line;
    assert First(all, Plain) == Move([Separator], Plain) && Rest(all, Plain) == line;
    WordsOne(all, Separator, Roles(line, Plain), None);
    assert all[1..] == line && [] + Words(line, Roles(line, Plain), None) == Words(line, Roles(line, Plain), None);
  }

  ghost predicate SkipsBlank(split: string -> Option<seq<string>>, c: char, line: string) {
    split([c] + line) == split(line)
  }

  lemma {:induction false} BlanksAreSkipped(split: string -> Option<seq<string>>, gap: string, line: string)
    requires forall c, s :: c == ' ' || c == '\t' ==> SkipsBlank(split, c, s)
    requires IsGap(gap)
    ensures split(gap + line) == split(line)
  {
    if gap == "" {
      assert gap + line == line;
    } else {
      BlanksAreSkipped(split, gap[1..], line);
      assert SkipsBlank(split, gap[0], gap[1..] + line);
      assert gap + line == [gap[0]] + (gap[1..] + line);
    }
  }

  lemma GapIsSkipped(gap: string, line: string)
    requires IsGap(gap)
    ensures Arguments(gap + line) == Arguments(line)
  {
    forall c, s | c == ' ' || c == '\t'
      ensures SkipsBlank(Arguments, c, s)
    {
      BlankIsSkipped(c, s);
    }
    BlanksAreSkipped(Arguments, gap, line);
  }

  lemma GapEndsWord(text: string, word: string, gap: string, line: string)
    requires IsSpelling(text, word) && gap != "" && IsGap(gap) && Arguments(line).Some?
    ensures Arguments(text + (gap + line)) == Some([word] + Arguments(line).value)
  {
    GapIsSkipped(gap[1..], line);
    BlankEndsWord(text, word, gap[0], gap[1..] + line);
    assert [gap[0]] + (gap[1..] + line) == gap + line;
  }

  /** The words of a line with what stands around them: one gap before each and one at the end. */
  function Laid(texts: seq<string>, gaps: seq<string>): string
    requires |gaps| == |texts| + 1
  {
    if texts == [] then gaps[0] else gaps[0] + (texts[0] + Laid(texts[1..], gaps[1..]))
  }

  lemma WordThenRest(text: string, word: string, gap: string, rest: string, line: string)
    requires IsSpelling(text, word) && IsGap(gap) && rest == gap + line && Arguments(line).Some?
    requires gap != "" || line == ""
    ensures Arguments(text + rest) == Some([word] + Arguments(line).value)
  {
    if gap == "" {
      assert rest == "" && text + rest == text;
      OneSpelling(text, word);
      assert Arguments(line) == Some([]) && [word] + [] == [word];
    } else {
      GapEndsWord(text, word, gap, line);
    }
  }

  /** Words spelled in any way, with any spaces and tabs between them, before and after, come back
      unchanged. */
  lemma {:induction false} LaidOutLineSplits(texts: seq<string>, words: seq<string>, gaps: seq<string>)
    requires |texts| == |words| && |gaps| == |texts| + 1
    requires forall i :: 0 <= i < |texts| ==> IsSpelling(texts[i], words[i])
    requires forall i :: 0 <= i < |gaps| ==> IsGap(gaps[i])
    requires forall i :: 0 < i < |texts| ==> gaps[i] != ""
    ensures Arguments(Laid(texts, gaps)) == Some(words)
  {
    if texts == [] {
      GapIsSkipped(gaps[0], "");
      assert gaps[0] + "" == gaps[0] && Arguments("") == Some([]);
    } else {
      var rest := Laid(texts[1..], gaps[1..]);
      var line := if |texts| == 1 then "" else texts[1] + Laid(texts[2..], gaps[2..]);
      LaidOutLineSplits(texts[1..], words[1..], gaps[1..]);
      if |texts| > 1 {
        assert texts[1..][1..] == texts[2..] && gaps[1..][1..] == gaps[2..];
      }
      assert rest == gaps[1] + line;
      GapIsSkipped(gaps[1], line);
      WordThenRest(texts[0], words[0], gaps[1], rest, line);
      GapIsSkipped(gaps[0], texts[0] + rest);
      assert [words[0]] + words[1..] == words;
    }
  }

  // ----- Quotes left open -----

  lemma {:induction false} StaysSingle(word: string)
    requires '\'' !in word
    ensures EndMode(word, Single) == Single
  {
    if word != "" {
      StaysSingle(word[1..]);
    }
  }

  lemma {:induction false} StaysDouble(word: string)
    ensures EndMode(Escaped(word), Double) == Double
  {
    if word != "" {
      StaysDouble(word[1..]);
      var one := if word[0] == '"' || word[0] == '\\' then ['\\', word[0]] else [word[0]];
      assert Escaped(word) == one + Escaped(word[1..]);
      assert Rest(Escaped(word), Double) == Escaped(word[1..]);
    }
  }

  /** A quote that is not closed makes the whole line fail, whatever comes before it. */
  lemma OpenQuoteFails(line: string, word: string)
    requires Arguments(line).Some? && !Dangles(line, Plain)
    ensures '\'' !in word ==> Arguments(line + ("'" + word)) == None
    ensures Arguments(line + ("\"" + Escaped(word))) == None
  {
    RolesAppend(line, "'" + word, Plain);
    RolesAppend(line, "\"" + Escaped(word), Plain);
    assert Rest("'" + word, Plain) == word && Rest("\"" + Escaped(word), Plain) == Escaped(word);
    if '\'' !in word {
      StaysSingle(word);
    }
    StaysDouble(word);
  }
}
