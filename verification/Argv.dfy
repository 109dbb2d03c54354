/** `splitArgv` (client/executor.go): how the command line of `run_command`, which no shell ever
    sees, is cut into arguments. */
module Argv {
  import opened Common

  datatype Mode = Plain | Single | Double

  /** What becomes of one character: kept in an argument, or dropped as a delimiting quote, as a
      backslash that protects the next character, or as a blank between arguments. */
  datatype Role = Kept | Quote | Escape | Separator

  /** One step of the scan: the roles of the next one or two characters, and the mode after them. */
  datatype Move = Move(roles: seq<Role>, mode: Mode)

  predicate IsBlank(c: char) {
    c == ' ' || c == '\t'
  }

  // ----- The reference: the role of each character -----

  function First(s: string, m: Mode): (r: Move)
    requires s != []
    ensures 1 <= |r.roles| <= |s|
  {
    match m
    case Single => if s[0] == '\'' then Move([Quote], Plain) else Move([Kept], Single)
    case Double =>
      if s[0] == '"' then Move([Quote], Plain)
      else if s[0] == '\\' && |s| > 1 && (s[1] == '"' || s[1] == '\\') then Move([Escape, Kept], Double)
      else Move([Kept], Double)
    case Plain =>
      if s[0] == '\'' then Move([Quote], Single)
      else if s[0] == '"' then Move([Quote], Double)
      else if s[0] == '\\' && |s| > 1 then Move([Escape, Kept], Plain)
      else if IsBlank(s[0]) then Move([Separator], Plain)
      else Move([Kept], Plain)
  }

  function Rest(s: string, m: Mode): string
    requires s != []
  {
    s[|First(s, m).roles|..]
  }

  function Roles(s: string, m: Mode): (r: seq<Role>)
    ensures |r| == |s|
    decreases |s|
  {
    if s == [] then [] else First(s, m).roles + Roles(Rest(s, m), First(s, m).mode)
  }

  /** Where the scan ends: inside an open quote, unless it is Plain. */
  function EndMode(s: string, m: Mode): Mode
    decreases |s|
  {
    if s == [] then m else EndMode(Rest(s, m), First(s, m).mode)
  }

  function Text(cur: Option<string>): string {
    if cur.Some? then cur.value else ""
  }

  function Flushed(cur: Option<string>): seq<string> {
    if cur.Some? then [cur.value] else []
  }

  /** One argument for each run of characters between separators: what the run keeps. `cur` is
      what was kept of the run under way. */
  function Words(s: string, roles: seq<Role>, cur: Option<string>): seq<string>
    requires |roles| == |s|
  {
    if s == [] then Flushed(cur)
    else
      match roles[0]
      case Separator => Flushed(cur) + Words(s[1..], roles[1..], None)
      case Kept => Words(s[1..], roles[1..], Some(Text(cur) + [s[0]]))
      case _ => Words(s[1..], roles[1..], Some(Text(cur)))
  }

  /** The arguments of a command line, unless a quote is left open. */
  function Arguments(command: string): Option<seq<string>> {
    if EndMode(command, Plain) == Plain then Some(Words(command, Roles(command, Plain), None)) else None
  }

  // ----- The loop -----

  function ModeOf(inSingle: bool, inDouble: bool): Mode {
    if inSingle then Single else if inDouble then Double else Plain
  }

  /** What the loop makes of the rest of the line, from any point of it. */
  function Scan(s: string, i: nat, m: Mode, cur: Option<string>, args: seq<string>): Option<seq<string>>
    requires i <= |s|
    decreases |s| - i
  {
    if i == |s| then (if m == Plain then Some(args + Flushed(cur)) else None)
    else
      var kept, next := Some(Text(cur) + [s[i]]), if i + 1 < |s| then Some(s[i + 1]) else None;
      match m
      case Single =>
        if s[i] == '\'' then Scan(s, i + 1, Plain, Some(Text(cur)), args) else Scan(s, i + 1, Single, kept, args)
      case Double =>
        if s[i] == '"' then Scan(s, i + 1, Plain, Some(Text(cur)), args)
        else if s[i] == '\\' && (next == Some('"') || next == Some('\\')) then
          Scan(s, i + 2, Double, Some(Text(cur) + [s[i + 1]]), args)
        else Scan(s, i + 1, Double, kept, args)
      case Plain =>
        if s[i] == '\'' then Scan(s, i + 1, Single, Some(Text(cur)), args)
        else if s[i] == '"' then Scan(s, i + 1, Double, Some(Text(cur)), args)
        else if s[i] == '\\' && next.Some? then Scan(s, i + 2, Plain, Some(Text(cur) + [s[i + 1]]), args)
        else if IsBlank(s[i]) then Scan(s, i + 1, Plain, None, args + Flushed(cur))
        else Scan(s, i + 1, Plain, kept, args)
  }

  method SplitArgv(command: string) returns (r: Option<seq<string>>)
    ensures r == Arguments(command)
  {
    var args: seq<string> := [];
    var cur, hasCur, inSingle, inDouble := "", false, false, false;
    var i := 0;
    while i < |command|
      invariant i <= |command| && !(inSingle && inDouble)
      invariant !hasCur ==> cur == "" && !inSingle && !inDouble
      invariant Scan(command, i, ModeOf(inSingle, inDouble), if hasCur then Some(cur) else None, args)
             == Scan(command, 0, Plain, None, [])
    {
      var c := command[i];
      assert args + [] == args;
      if inSingle {
        if c == '\'' {
          inSingle := false;
        } else {
          cur, hasCur := cur + [c], true;
        }
      } else if inDouble {
        if c == '"' {
          inDouble := false;
        } else if c == '\\' && i + 1 < |command| && (command[i + 1] == '"' || command[i + 1] == '\\') {
          i := i + 1;
          cur, hasCur := cur + [command[i]], true;
        } else {
          cur, hasCur := cur + [c], true;
        }
      } else if c == '\'' {
        inSingle, hasCur := true, true;
      } else if c == '"' {
        inDouble, hasCur := true, true;
      } else if c == '\\' && i + 1 < |command| {
        i := i + 1;
        cur, hasCur := cur + [command[i]], true;
      } else if c == ' ' || c == '\t' {
        if hasCur {
          args, cur, hasCur := args + [cur], "", false;
        }
      } else {
        cur, hasCur := cur + [c], true;
      }
      i := i + 1;
    }
    ScanIsArguments(command);
    assert args + [] == args;
    if inSingle || inDouble {
      return None;
    }
    if hasCur {
      args := args + [cur];
    }
    r := Some(args);
  }

  /** The run under way after one move, and the argument the move completes. */
  function NextRun(s: string, roles: seq<Role>, cur: Option<string>): Option<string>
    requires 1 <= |roles| <= |s|
  {
    if |roles| == 2 then Some(Text(cur) + [s[1]])
    else
      match roles[0]
      case Separator => None
      case Kept => Some(Text(cur) + [s[0]])
      case _ => Some(Text(cur))
  }

  function Completed(roles: seq<Role>, cur: Option<string>): seq<string> {
    if roles == [Separator] then Flushed(cur) else []
  }

  lemma WordsOne(s: string, role: Role, roles: seq<Role>, cur: Option<string>)
    requires |s| == 1 + |roles|
    ensures Words(s, [role] + roles, cur) == Completed([role], cur) + Words(s[1..], roles, NextRun(s, [role], cur))
  {
    assert ([role] + roles)[1..] == roles;
  }

  lemma WordsTwo(s: string, roles: seq<Role>, cur: Option<string>)
    requires |s| == 2 + |roles|
    ensures Words(s, [Escape, Kept] + roles, cur) == Words(s[2..], roles, Some(Text(cur) + [s[1]]))
  {
    WordsOne(s, Escape, [Kept] + roles, cur);
    WordsOne(s[1..], Kept, roles, Some(Text(cur)));
    assert [Escape, Kept] + roles == [Escape] + ([Kept] + roles);
    assert s[1..][1..] == s[2..];
  }

  lemma WordsMove(s: string, m: Mode, cur: Option<string>)
    requires s != []
    ensures var move := First(s, m);
            Words(s, Roles(s, m), cur) ==
            Completed(move.roles, cur) + Words(Rest(s, m), Roles(Rest(s, m), move.mode), NextRun(s, move.roles, cur))
  {
    var move, rest := First(s, m), Roles(Rest(s, m), First(s, m).mode);
    if |move.roles| == 1 {
      assert move.roles == [move.roles[0]];
      WordsOne(s, move.roles[0], rest, cur);
    } else {
      assert move.roles == [Escape, Kept];
      WordsTwo(s, rest, cur);
    }
  }

  /** One turn of the loop is one move of the reference. */
  lemma ScanMove(s: string, i: nat, m: Mode, cur: Option<string>, args: seq<string>)
    requires i < |s|
    ensures var rest := s[i..];
            var move := First(rest, m);
            Scan(s, i, m, cur, args) ==
            Scan(s, i + |move.roles|, move.mode, NextRun(rest, move.roles, cur), args + Completed(move.roles, cur))
  {
    assert args + [] == args;
  }

  lemma Associates<T>(a: seq<T>, b: seq<T>, c: seq<T>)
    ensures a + b + c == a + (b + c)
  {
  }

  lemma {:induction false} ScanWords(s: string, i: nat, m: Mode, cur: Option<string>, args: seq<string>)
    requires i <= |s|
    ensures Scan(s, i, m, cur, args) ==
            if EndMode(s[i..], m) == Plain then Some(args + Words(s[i..], Roles(s[i..], m), cur)) else None
    decreases |s| - i
  {
    var rest := s[i..];
    if i < |s| {
      var move := First(rest, m);
      var out, run := Completed(move.roles, cur), NextRun(rest, move.roles, cur);
      var left := s[i + |move.roles|..];
      assert Rest(rest, m) == left;
      ScanMove(s, i, m, cur, args);
      ScanWords(s, i + |move.roles|, move.mode, run, args + out);
      WordsMove(rest, m, cur);
      Associates(args, out, Words(left, Roles(left, move.mode), run));
    } else {
      assert rest == [];
    }
  }

  lemma ScanIsArguments(s: string)
    ensures Scan(s, 0, Plain, None, []) == Arguments(s)
  {
    ScanWords(s, 0, Plain, None, []);
    assert s[0..] == s;
    assert [] + Words(s, Roles(s, Plain), None) == Words(s, Roles(s, Plain), None);
  }

  // ----- Nothing is lost but delimiters -----

  function KeptOf(s: string, roles: seq<Role>): string
    requires |roles| == |s|
  {
    if s == [] then [] else (if roles[0] == Kept then [s[0]] else []) + KeptOf(s[1..], roles[1..])
  }

  /** Only blanks separate, only quote characters delimit, and only a backslash that protects the
      next character is consumed. */
  ghost predicate RolesFit(s: string, roles: seq<Role>)
    requires |roles| == |s|
  {
    forall i :: 0 <= i < |s| ==> RoleFits(s, roles, i)
  }

  predicate RoleFits(s: string, roles: seq<Role>, i: nat)
    requires i < |s| == |roles|
  {
    match roles[i]
    case Separator => IsBlank(s[i])
    case Quote => s[i] == '"' || s[i] == '\''
    case Escape => s[i] == '\\' && i + 1 < |s| && roles[i + 1] == Kept
    case Kept => true
  }

  lemma {:induction false} RolesAlwaysFit(s: string, m: Mode)
    ensures RolesFit(s, Roles(s, m))
    decreases |s|
  {
    if s != [] {
      var move, rest := First(s, m), Rest(s, m);
      RolesAlwaysFit(rest, move.mode);
      var n, roles := |move.roles|, Roles(s, m);
      forall i | 0 <= i < |s|
        ensures RoleFits(s, roles, i)
      {
        if i >= n {
          assert RoleFits(rest, Roles(rest, move.mode), i - n);
        }
      }
    }
  }

  lemma FlushedText(cur: Option<string>)
    ensures Concat(Flushed(cur)) == Text(cur)
  {
    assert cur.Some? ==> [cur.value][..0] == [];
  }

  lemma Regrouped(out: string, run: string, text: string, kept: string, rest: string)
    requires out + run == text + kept
    ensures out + (run + rest) == text + (kept + rest)
  {
    Associates(out, run, rest);
    Associates(text, kept, rest);
  }

  /** What one role completes and leaves under way is what was under way and what it keeps. */
  lemma KeptStep(s: string, role: Role, cur: Option<string>)
    requires s != []
    ensures Concat(Completed([role], cur)) + Text(NextRun(s, [role], cur)) ==
            Text(cur) + if role == Kept then [s[0]] else []
  {
    FlushedText(cur);
    assert Concat<char>([]) == [];
  }

  lemma {:induction false} WordsKeep(s: string, roles: seq<Role>, cur: Option<string>)
    requires |roles| == |s|
    ensures Concat(Words(s, roles, cur)) == Text(cur) + KeptOf(s, roles)
  {
    if s == [] {
      FlushedText(cur);
    } else {
      var run := NextRun(s, [roles[0]], cur);
      assert roles == [roles[0]] + roles[1..];
      WordsOne(s, roles[0], roles[1..], cur);
      WordsKeep(s[1..], roles[1..], run);
      ConcatAppend(Completed([roles[0]], cur), Words(s[1..], roles[1..], run));
      KeptStep(s, roles[0], cur);
      Regrouped(Concat(Completed([roles[0]], cur)), Text(run), Text(cur), if roles[0] == Kept then [s[0]] else [],
                KeptOf(s[1..], roles[1..]));
    }
  }

  /** The arguments, end to end, are the command line without its unquoted blanks, its delimiting
      quotes and its protecting backslashes. */
  lemma ArgumentsKeepTheRest(command: string)
    requires Arguments(command).Some?
    ensures Concat(Arguments(command).value) == KeptOf(command, Roles(command, Plain))
    ensures RolesFit(command, Roles(command, Plain))
  {
    WordsKeep(command, Roles(command, Plain), None);
    RolesAlwaysFit(command, Plain);
  }

  // ----- Quoting and splitting -----

  /** The line ends on a backslash that would have protected one more character. */
  predicate Dangles(s: string, m: Mode)
    decreases |s|
  {
    s != [] && if |s| == 1 then s == "\\" && m != Single else Dangles(Rest(s, m), First(s, m).mode)
  }

  lemma FirstStays(s: string, t: string, m: Mode)
    requires s != [] && !Dangles(s, m)
    ensures First(s + t, m) == First(s, m) && Rest(s + t, m) == Rest(s, m) + t
  {
  }

  lemma {:induction false} RolesAppend(s: string, t: string, m: Mode)
    requires !Dangles(s, m)
    ensures Roles(s + t, m) == Roles(s, m) + Roles(t, EndMode(s, m))
    ensures EndMode(s + t, m) == EndMode(t, EndMode(s, m))
    decreases |s|
  {
    if s == [] {
      assert s + t == t;
    } else {
      var move := First(s, m);
      FirstStays(s, t, m);
      RolesAppend(Rest(s, m), t, move.mode);
      Associates(move.roles, Roles(Rest(s, m), move.mode), Roles(t, EndMode(s, m)));
    }
  }

  lemma {:induction false} WordsThrough(s: string, roles: seq<Role>, t: string, after: seq<Role>, cur: Option<string>)
    requires |roles| == |s| > 0 && |after| == |t| && Separator !in roles
    ensures Words(s + t, roles + after, cur) == Words(t, after, Some(Text(cur) + KeptOf(s, roles)))
  {
    var run := NextRun(s, [roles[0]], cur);
    assert roles[0] in roles;
    assert (s + t)[1..] == s[1..] + t && roles + after == [roles[0]] + (roles[1..] + after);
    WordsOne(s + t, roles[0], roles[1..] + after, cur);
    assert Text(run) + KeptOf(s[1..], roles[1..]) == Text(cur) + KeptOf(s, roles);
    if |s| > 1 {
      WordsThrough(s[1..], roles[1..], t, after, run);
    } else {
      assert s[1..] + t == t && roles[1..] + after == after && Text(run) + KeptOf(s[1..], roles[1..]) == Text(run);
    }
  }

  /** `text` spells the one argument `word`. */
  ghost predicate IsSpelling(text: string, word: string) {
    && text != "" && EndMode(text, Plain) == Plain && !Dangles(text, Plain)
    && Separator !in Roles(text, Plain) && KeptOf(text, Roles(text, Plain)) == word
  }

  function Join(texts: seq<string>): string {
    if texts == [] then ""
    else if |texts| == 1 then texts[0]
    else texts[0] + " " + Join(texts[1..])
  }

  lemma OneSpelling(text: string, word: string)
    requires IsSpelling(text, word)
    ensures Arguments(text) == Some([word])
  {
    WordsThrough(text, Roles(text, Plain), "", [], None);
    assert "" + word == word && text + "" == text && Roles(text, Plain) + [] == Roles(text, Plain);
  }

  lemma BlankEndsWord(text: string, word: string, c: char, line: string)
    requires IsSpelling(text, word) && Arguments(line).Some? && (c == ' ' || c == '\t')
    ensures Arguments(text + ([c] + line)) == Some([word] + Arguments(line).value)
  {
    var tail := [c] + line;
    RolesAppend(text, tail, Plain);
    assert First(tail, Plain) == Move([Separator], Plain) && Rest(tail, Plain) == line;
    WordsThrough(text, Roles(text, Plain), tail, Roles(tail, Plain), None);
    WordsOne(tail, Separator, Roles(line, Plain), Some(word));
    assert "" + word == word && tail[1..] == line;
  }

  /** Arguments spelled in any way at all, joined by blanks, come back unchanged. */
  lemma {:induction false} SpelledLineSplits(texts: seq<string>, words: seq<string>)
    requires |texts| == |words| && forall i :: 0 <= i < |texts| ==> IsSpelling(texts[i], words[i])
    ensures Arguments(Join(texts)) == Some(words)
  {
    if |texts| == 1 {
      OneSpelling(texts[0], words[0]);
      assert words == [words[0]];
    } else if |texts| > 1 {
      SpelledLineSplits(texts[1..], words[1..]);
      BlankEndsWord(texts[0], words[0], ' ', Join(texts[1..]));
      assert texts[0] + " " + Join(texts[1..]) == texts[0] + ([' '] + Join(texts[1..]));
      assert [words[0]] + words[1..] == words;
    }
  }

  // ----- Three ways to spell an argument -----

  function Escaped(word: string): string {
    if word == "" then ""
    else (if word[0] == '"' || word[0] == '\\' then ['\\', word[0]] else [word[0]]) + Escaped(word[1..])
  }

  function DoubleQuoted(word: string): string {
    "\"" + Escaped(word) + "\""
  }

  function SingleQuoted(word: string): string {
    "'" + word + "'"
  }

  function Backslashed(word: string): string {
    if word == "" then "" else ['\\', word[0]] + Backslashed(word[1..])
  }

  /** What is left of a spelling once the scan is inside it. */
  ghost predicate Finishes(s: string, m: Mode, word: string) {
    && EndMode(s, m) == Plain && !Dangles(s, m)
    && Separator !in Roles(s, m) && KeptOf(s, Roles(s, m)) == word
  }

  lemma KeptOne(s: string, m: Mode, word: string)
    requires s != [] && |First(s, m).roles| == 1 && First(s, m).roles[0] != Separator
    requires |s| > 1 && Finishes(Rest(s, m), First(s, m).mode, word)
    ensures Finishes(s, m, (if First(s, m).roles[0] == Kept then [s[0]] else []) + word)
  {
    assert Roles(s, m)[1..] == Roles(Rest(s, m), First(s, m).mode);
  }

  lemma KeptTwo(s: string, m: Mode, word: string)
    requires |s| > 1 && First(s, m).roles == [Escape, Kept]
    requires Finishes(Rest(s, m), First(s, m).mode, word)
    ensures Finishes(s, m, [s[1]] + word)
  {
    var rest := Roles(Rest(s, m), First(s, m).mode);
    assert Roles(s, m)[1..] == [Kept] + rest && Roles(s, m)[1..][1..] == rest;
    assert s[1..][1..] == s[2..];
  }

  lemma ClosingQuote(m: Mode)
    requires m != Plain
    ensures Finishes(if m == Double then "\"" else "'", m, "")
  {
    var s := if m == Double then "\"" else "'";
    assert Rest(s, m) == "" && Roles(s, m) == [Quote];
  }

  lemma EscapedOne(c: char, rest: string, word: string)
    requires rest != "" && Finishes(rest, Double, word)
    ensures Finishes((if c == '"' || c == '\\' then ['\\', c] else [c]) + rest, Double, [c] + word)
  {
    if c == '"' || c == '\\' {
      assert (['\\', c] + rest)[2..] == rest;
      KeptTwo(['\\', c] + rest, Double, word);
    } else {
      assert ([c] + rest)[1..] == rest;
      KeptOne([c] + rest, Double, word);
    }
  }

  lemma {:induction false} EscapedFinishes(word: string)
    ensures Finishes(Escaped(word) + "\"", Double, word)
  {
    if word == "" {
      ClosingQuote(Double);
      assert Escaped(word) + "\"" == "\"";
    } else {
      EscapedFinishes(word[1..]);
      var rest := Escaped(word[1..]) + "\"";
      EscapedOne(word[0], rest, word[1..]);
      assert (if word[0] == '"' || word[0] == '\\' then ['\\', word[0]] else [word[0]]) + rest == Escaped(word) + "\"";
      assert [word[0]] + word[1..] == word;
    }
  }

  lemma {:induction false} SingleFinishes(word: string)
    requires '\'' !in word
    ensures Finishes(word + "'", Single, word)
  {
    var s := word + "'";
    if word == "" {
      ClosingQuote(Single);
      assert s == "'";
    } else {
      SingleFinishes(word[1..]);
      assert s == [word[0]] + (word[1..] + "'") && Rest(s, Single) == word[1..] + "'";
      KeptOne(s, Single, word[1..]);
    }
  }

  lemma {:induction false} BackslashedFinishes(word: string)
    ensures Finishes(Backslashed(word), Plain, word)
  {
    if word != "" {
      BackslashedFinishes(word[1..]);
      var s := Backslashed(word);
      assert Rest(s, Plain) == Backslashed(word[1..]);
      KeptTwo(s, Plain, word[1..]);
    }
  }

  lemma DoubleQuotedSpells(word: string)
    ensures IsSpelling(DoubleQuoted(word), word)
  {
    EscapedFinishes(word);
    var s := DoubleQuoted(word);
    assert s == "\"" + (Escaped(word) + "\"") && Rest(s, Plain) == Escaped(word) + "\"";
    KeptOne(s, Plain, word);
  }

  lemma SingleQuotedSpells(word: string)
    requires '\'' !in word
    ensures IsSpelling(SingleQuoted(word), word)
  {
    SingleFinishes(word);
    var s := SingleQuoted(word);
    assert s == "'" + (word + "'") && Rest(s, Plain) == word + "'";
    KeptOne(s, Plain, word);
  }

  lemma BackslashedSpells(word: string)
    requires word != ""
    ensures IsSpelling(Backslashed(word), word)
  {
    BackslashedFinishes(word);
  }

  function QuotedAll(words: seq<string>): (r: seq<string>)
    ensures |r| == |words|
    ensures forall i :: 0 <= i < |words| ==> r[i] == DoubleQuoted(words[i])
  {
    seq(|words|, i requires 0 <= i < |words| => DoubleQuoted(words[i]))
  }

  /** Any arguments at all, empty ones and those with quotes, blanks and backslashes included,
      survive quoting, joining and splitting. */
  lemma QuotedLineSplits(words: seq<string>)
    ensures Arguments(Join(QuotedAll(words))) == Some(words)
  {
    forall i | 0 <= i < |words|
      ensures IsSpelling(QuotedAll(words)[i], words[i])
    {
      DoubleQuotedSpells(words[i]);
    }
    SpelledLineSplits(QuotedAll(words), words);
  }
}
