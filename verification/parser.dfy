/**
 * The command-line lexer of main.py (`commandParser`): a line is dropped when
 * it holds a comment, otherwise it is split on ';', every segment is stripped
 * and matched at its start against the pattern `([a-zA-Z0-9]+)\(([^)]*)\)`,
 * and the argument text of a match is split on ',' and each piece stripped.
 */
module Parser {
  import opened Wrappers

  /** A recognised command: its operation name and its argument list. */
  datatype Command = Command(operation: string, args: seq<string>)

  // ---------------------------------------------------------------------
  // Characters

  /** Python's whitespace, the characters `str.strip()` removes. */
  const WhiteSpace: set<char> := {
    ' ', '\t', '\n', '\U{0B}', '\U{0C}', '\r', '\U{1C}', '\U{1D}', '\U{1E}', '\U{1F}',
    '\U{85}', '\U{A0}', '\U{1680}',
    '\U{2000}', '\U{2001}', '\U{2002}', '\U{2003}', '\U{2004}', '\U{2005}',
    '\U{2006}', '\U{2007}', '\U{2008}', '\U{2009}', '\U{200A}',
    '\U{2028}', '\U{2029}', '\U{202F}', '\U{205F}', '\U{3000}'
  }

  predicate IsSpace(c: char) {
    c in WhiteSpace
  }

  /** The character class `[a-zA-Z0-9]`. */
  predicate IsAlnum(c: char) {
    ('a' <= c <= 'z') || ('A' <= c <= 'Z') || ('0' <= c <= '9')
  }

  lemma AlnumIsNotSpace(c: char)
    requires IsAlnum(c)
    ensures !IsSpace(c)
  {
  }

  predicate AllAlnum(s: string) {
    forall k :: 0 <= k < |s| ==> IsAlnum(s[k])
  }

  /** Neither end of `s` is whitespace. */
  predicate Stripped(s: string) {
    s == [] || (!IsSpace(s[0]) && !IsSpace(s[|s| - 1]))
  }

  /** A comment marker "//" starts at index i of `line`. */
  predicate CommentAt(line: string, i: int)
    requires 0 <= i < |line| - 1
  {
    line[i] == '/' && line[i + 1] == '/'
  }

  /** Python's `"//" in line`. */
  predicate HasComment(line: string) {
    exists i :: 0 <= i < |line| - 1 && CommentAt(line, i)
  }

  /** The comment test is Python's substring test: "//" occurs as a
      contiguous slice of the line. */
  lemma CommentIffSubstring(line: string)
    ensures HasComment(line) <==> exists i, j :: 0 <= i <= j <= |line| && line[i..j] == "//"
  {
    if HasComment(line) {
      var i :| 0 <= i < |line| - 1 && CommentAt(line, i);
      assert line[i..i + 2] == "//";
    }
    if exists i, j :: 0 <= i <= j <= |line| && line[i..j] == "//" {
      var i, j :| 0 <= i <= j <= |line| && line[i..j] == "//";
      assert line[i] == line[i..j][0] && line[i + 1] == line[i..j][1];
      assert CommentAt(line, i);
    }
  }

  // ---------------------------------------------------------------------
  // str.strip()

  /** The number of leading whitespace characters of `s`: where `s.strip()`
      begins. */
  function StripStart(s: string): (i: nat)
    ensures i <= |s|
    ensures forall k :: 0 <= k < i ==> IsSpace(s[k])
    ensures i == |s| || !IsSpace(s[i])
  {
    if |s| > 0 && IsSpace(s[0]) then
      var i := 1 + StripStart(s[1..]);
      assert forall k :: 1 <= k < i ==> s[k] == s[1..][k - 1];
      i
    else 0
  }

  /** Where the trailing whitespace of `s[lo..hi]` begins. */
  function StripEnd(s: string, lo: nat, hi: nat): (j: nat)
    requires lo <= hi <= |s|
    ensures lo <= j <= hi
    ensures forall k :: j <= k < hi ==> IsSpace(s[k])
    ensures j == lo || !IsSpace(s[j - 1])
    decreases hi - lo
  {
    if lo < hi && IsSpace(s[hi - 1]) then StripEnd(s, lo, hi - 1) else hi
  }

  /** `s.strip()`: the result is the slice of `s` at `StripStart(s)`, only
      whitespace was cut from either end, and neither end of the result is
      whitespace. */
  function Strip(s: string): (r: string)
    ensures Stripped(r)
    ensures StripStart(s) + |r| <= |s| && r == s[StripStart(s)..StripStart(s) + |r|]
    ensures forall k :: 0 <= k < StripStart(s) ==> IsSpace(s[k])
    ensures forall k :: StripStart(s) + |r| <= k < |s| ==> IsSpace(s[k])
  {
    s[StripStart(s)..StripEnd(s, StripStart(s), |s|)]
  }

  lemma StripKeepsChars(s: string, c: char)
    requires c in Strip(s)
    ensures c in s
  {
    var r, i := Strip(s), StripStart(s);
    var k :| 0 <= k < |r| && r[k] == c;
    assert s[i + k] == c;
  }

  // ---------------------------------------------------------------------
  // str.split(sep)

  /** Joins non-empty `parts` with `sep` between neighbours. */
  function Join(parts: seq<string>, sep: char): string
    requires |parts| > 0
  {
    if |parts| == 1 then parts[0] else parts[0] + [sep] + Join(parts[1..], sep)
  }

  /** `s.split(sep)`: at least one piece, no piece holds `sep`, and joining
      the pieces back with `sep` gives `s` again. */
  function Split(s: string, sep: char): (parts: seq<string>)
    ensures |parts| > 0
    ensures forall i :: 0 <= i < |parts| ==> sep !in parts[i]
    ensures Join(parts, sep) == s
  {
    if s == [] then [""]
    else
      var rest := Split(s[1..], sep);
      if s[0] == sep then
        assert Join([""] + rest, sep) == [sep] + Join(rest, sep) by {
          assert ([""] + rest)[1..] == rest;
        }
        [""] + rest
      else
        var parts := [[s[0]] + rest[0]] + rest[1..];
        assert Join(parts, sep) == [s[0]] + Join(rest, sep) by {
          if |rest| > 1 {
            assert parts[1..] == rest[1..];
            assert Join(rest, sep) == rest[0] + [sep] + Join(rest[1..], sep);
          }
        }
        assert s == [s[0]] + s[1..];
        parts
  }

  // ---------------------------------------------------------------------
  // The regular expression `([a-zA-Z0-9]+)\(([^)]*)\)`, matched at the start

  /** The length of the longest alphanumeric prefix of `s`. */
  function AlnumPrefix(s: string): (n: nat)
    ensures n <= |s| && AllAlnum(s[..n])
    ensures n == |s| || !IsAlnum(s[n])
  {
    if |s| > 0 && IsAlnum(s[0]) then
      var n := 1 + AlnumPrefix(s[1..]);
      assert s[..n] == [s[0]] + s[1..][..n - 1];
      n
    else 0
  }

  /** The index of the first `c` in `s`, if any. */
  function IndexOf(s: string, c: char): (k: Option<nat>)
    ensures k.Some? ==> k.value < |s| && s[k.value] == c && c !in s[..k.value]
    ensures k.None? ==> c !in s
  {
    if s == [] then None
    else if s[0] == c then Some(0)
    else match IndexOf(s[1..], c)
      case None => None
      case Some(j) =>
        assert s[..j + 1] == [s[0]] + s[1..][..j];
        Some(j + 1)
  }

  /** `s` begins with a call shape: a non-empty alphanumeric name, '(', text
      without ')', and ')'. Anything may follow. */
  predicate BeginsWithCall(s: string) {
    exists n, m :: 0 < n < m < |s| && AllAlnum(s[..n]) && s[n] == '('
                 && s[m] == ')' && ')' !in s[n + 1..m]
  }

  /** `re.match` of the command pattern: the two groups (name, argument text). */
  function MatchCall(s: string): (groups: Option<(string, string)>)
    ensures groups.Some? ==> var (name, text) := groups.value;
      |name| > 0 && AllAlnum(name) && ')' !in text
      && (forall c :: c in text ==> c in s)
  {
    var n := AlnumPrefix(s);
    if n == 0 || n == |s| || s[n] != '(' then None
    else
      var k := IndexOf(s[n + 1..], ')');
      if k.None? then None
      else
        var text := s[n + 1..n + 1 + k.value];
        assert text == s[n + 1..][..k.value];
        assert forall c :: c in text ==> c in s by {
          forall c | c in text ensures c in s {
            var j :| 0 <= j < |text| && text[j] == c;
            assert s[n + 1 + j] == c;
          }
        }
        Some((s[..n], text))
  }

  /** The pattern matches exactly the strings that begin with a call shape. */
  lemma MatchIffCall(s: string)
    ensures MatchCall(s).Some? <==> BeginsWithCall(s)
  {
    if MatchCall(s).Some? {
      MatchIsCall(s);
    }
    if BeginsWithCall(s) {
      CallIsMatched(s);
    }
  }

  lemma MatchIsCall(s: string)
    requires MatchCall(s).Some?
    ensures BeginsWithCall(s)
  {
    var n := AlnumPrefix(s);
    var k := IndexOf(s[n + 1..], ')').value;
    assert s[n + 1..n + 1 + k] == s[n + 1..][..k];
    assert s[n + 1 + k] == ')';
    assert 0 < n < n + 1 + k < |s| && AllAlnum(s[..n]) && s[n] == '(';
  }

  lemma CallIsMatched(s: string)
    requires BeginsWithCall(s)
    ensures MatchCall(s).Some?
  {
    var n', m :| 0 < n' < m < |s| && AllAlnum(s[..n']) && s[n'] == '('
                 && s[m] == ')' && ')' !in s[n' + 1..m];
    AlnumPrefixUnique(s, n');
    assert s[n' + 1..][m - n' - 1] == ')';
  }

  lemma AlnumPrefixOfExtension(s: string, t: string)
    requires AlnumPrefix(s) < |s|
    ensures AlnumPrefix(s + t) == AlnumPrefix(s)
  {
    var n, n' := AlnumPrefix(s), AlnumPrefix(s + t);
    assert (s + t)[n] == s[n];
  }

  lemma IndexOfExtension(s: string, t: string, c: char)
    requires IndexOf(s, c).Some?
    ensures IndexOf(s + t, c) == IndexOf(s, c)
  {
    var k := IndexOf(s, c).value;
    var u := s + t;
    var k' :| IndexOf(u, c) == Some(k') by {
      assert u[k] == c;
    }
  }

  /** Text after the first match is ignored: the match is anchored only at
      the start. */
  lemma {:induction false} MatchIgnoresTail(s: string, t: string)
    requires MatchCall(s).Some?
    ensures MatchCall(s + t) == MatchCall(s)
  {
    var n := AlnumPrefix(s);
    var k := IndexOf(s[n + 1..], ')').value;
    MatchCallValue(s, n, k);
    AlnumPrefixOfExtension(s, t);
    assert (s + t)[n] == s[n];
    assert (s + t)[n + 1..] == s[n + 1..] + t;
    IndexOfExtension(s[n + 1..], t, ')');
    MatchCallValue(s + t, n, k);
    assert (s + t)[n + 1..n + 1 + k] == s[n + 1..n + 1 + k];
    assert (s + t)[..n] == s[..n];
  }

  /** The groups of a match: the alphanumeric prefix, and the text from the
      '(' after it to the first ')'. */
  lemma MatchCallValue(s: string, n: nat, k: nat)
    requires n == AlnumPrefix(s) && 0 < n < |s| && s[n] == '('
    requires IndexOf(s[n + 1..], ')') == Some(k)
    ensures n + 1 + k < |s|
    ensures MatchCall(s) == Some((s[..n], s[n + 1..n + 1 + k]))
  {
  }

  // ---------------------------------------------------------------------
  // Commands

  /** Every argument stripped, in order. */
  function StripAll(pieces: seq<string>): (args: seq<string>)
    ensures |args| == |pieces|
    ensures forall i :: 0 <= i < |args| ==> args[i] == Strip(pieces[i])
  {
    seq(|pieces|, i requires 0 <= i < |pieces| => Strip(pieces[i]))
  }

  /** An argument as the lexer can leave it when the line has no ';' inside
      the segment: stripped, and free of ')', ',' and ';'. */
  predicate ArgOk(a: string) {
    Stripped(a) && ')' !in a && ',' !in a && ';' !in a
  }

  /** A command as the lexer can produce it from a segment without ';': a
      non-empty alphanumeric name and a non-empty list of good arguments. */
  predicate WellFormed(c: Command) {
    && |c.operation| > 0 && AllAlnum(c.operation)
    && |c.args| > 0
    && forall i :: 0 <= i < |c.args| ==> ArgOk(c.args[i])
  }

  predicate AllWellFormed(cmds: seq<Command>) {
    forall i :: 0 <= i < |cmds| ==> WellFormed(cmds[i])
  }

  /** What one `;`-separated segment contributes, if anything. */
  function ParseSegment(segment: string): (c: Option<Command>)
    ensures ';' !in segment && c.Some? ==> WellFormed(c.value)
  {
    var m := MatchCall(Strip(segment));
    if m.None? then None
    else
      var (name, text) := m.value;
      var args := StripAll(Split(text, ','));
      assert ';' !in segment ==> forall i :: 0 <= i < |args| ==> ArgOk(args[i]) by {
        if ';' !in segment {
          if ';' in text {
            StripKeepsChars(segment, ';');
          }
          ArgsWellFormed(text);
        }
      }
      Some(Command(name, args))
  }

  /** A segment contributes a command exactly when its stripped text begins
      with a call shape. */
  lemma SegmentIffCall(segment: string)
    ensures ParseSegment(segment).Some? <==> BeginsWithCall(Strip(segment))
  {
    MatchIffCall(Strip(segment));
  }

  /** The arguments cut from an argument text without ')' and ';' are
      stripped and hold neither of them, nor ','. */
  lemma ArgsWellFormed(text: string)
    requires ')' !in text && ';' !in text
    ensures forall i :: 0 <= i < |StripAll(Split(text, ','))| ==> ArgOk(StripAll(Split(text, ','))[i])
  {
    var pieces := Split(text, ',');
    forall i | 0 <= i < |pieces|
      ensures ArgOk(Strip(pieces[i]))
    {
      PieceWellFormed(text, pieces, i);
    }
  }

  /** One stripped piece of the argument text keeps only characters of the
      text, and none of them is ','. */
  lemma PieceWellFormed(text: string, pieces: seq<string>, i: nat)
    requires ')' !in text && ';' !in text
    requires pieces == Split(text, ',') && i < |pieces|
    ensures ArgOk(Strip(pieces[i]))
  {
    var a := Strip(pieces[i]);
    if ')' in a {
      StripKeepsChars(pieces[i], ')');
      JoinContains(pieces, ',', i, ')');
    }
    if ',' in a {
      StripKeepsChars(pieces[i], ',');
    }
    if ';' in a {
      StripKeepsChars(pieces[i], ';');
      JoinContains(pieces, ',', i, ';');
    }
  }

  /** A character of one piece is a character of the joined text. */
  lemma {:induction false} JoinContains(parts: seq<string>, sep: char, i: nat, c: char)
    requires i < |parts| && c in parts[i]
    ensures c in Join(parts, sep)
  {
    if |parts| > 1 {
      if i == 0 {
        assert Join(parts, sep) == parts[0] + [sep] + Join(parts[1..], sep);
      } else {
        JoinContains(parts[1..], sep, i - 1, c);
      }
    }
  }

  /** What one segment adds to the command list: its command, or nothing. */
  function Contribution(segment: string): (cmds: seq<Command>)
    ensures |cmds| <= 1
    ensures ';' !in segment ==> AllWellFormed(cmds)
  {
    var c := ParseSegment(segment);
    if c.Some? then [c.value] else []
  }

  /** `f` applied to every element of `xs`, the results concatenated in
      order. */
  function FlatMap<A, B>(f: A -> seq<B>, xs: seq<A>): seq<B> {
    if xs == [] then [] else f(xs[0]) + FlatMap(f, xs[1..])
  }

  /** Mapping distributes over concatenation, so every element's results keep
      their position relative to the others'. */
  lemma {:induction false} FlatMapAppend<A, B>(f: A -> seq<B>, a: seq<A>, b: seq<A>)
    ensures FlatMap(f, a + b) == FlatMap(f, a) + FlatMap(f, b)
  {
    if a == [] {
      assert a + b == b;
    } else {
      assert (a + b)[0] == a[0] && (a + b)[1..] == a[1..] + b;
      FlatMapAppend(f, a[1..], b);
    }
  }

  lemma FlatMapSnoc<A, B>(f: A -> seq<B>, xs: seq<A>, i: nat)
    requires i < |xs|
    ensures FlatMap(f, xs[..i + 1]) == FlatMap(f, xs[..i]) + f(xs[i])
  {
    assert xs[..i + 1] == xs[..i] + [xs[i]];
    FlatMapAppend(f, xs[..i], [xs[i]]);
    assert FlatMap(f, [xs[i]]) == f(xs[i]) + FlatMap(f, []);
  }

  /** At most one result per element gives at most as many results as
      elements. */
  lemma {:induction false} FlatMapLength<A, B>(f: A -> seq<B>, xs: seq<A>)
    requires forall i :: 0 <= i < |xs| ==> |f(xs[i])| <= 1
    ensures |FlatMap(f, xs)| <= |xs|
  {
    if xs != [] {
      assert forall i :: 0 <= i < |xs| - 1 ==> xs[1..][i] == xs[i + 1];
      FlatMapLength(f, xs[1..]);
    }
  }

  /** A property every element's results have, all results have. */
  lemma {:induction false} FlatMapAll<A, B>(f: A -> seq<B>, xs: seq<A>, p: B -> bool)
    requires forall i, j :: 0 <= i < |xs| && 0 <= j < |f(xs[i])| ==> p(f(xs[i])[j])
    ensures forall k :: 0 <= k < |FlatMap(f, xs)| ==> p(FlatMap(f, xs)[k])
  {
    if xs != [] {
      assert forall i :: 0 <= i < |xs| - 1 ==> xs[1..][i] == xs[i + 1];
      FlatMapAll(f, xs[1..], p);
      var first, rest := f(xs[0]), FlatMap(f, xs[1..]);
      assert forall k :: 0 <= k < |first| ==> p(first[k]);
      assert forall k :: |first| <= k < |first| + |rest| ==> (first + rest)[k] == rest[k - |first|];
    }
  }

  /** The commands of a sequence of segments: each segment's contribution,
      in segment order, so at most one command per segment. */
  function ParseSegments(segments: seq<string>): (cmds: seq<Command>)
    ensures |cmds| <= |segments|
  {
    FlatMapLength(Contribution, segments);
    FlatMap(Contribution, segments)
  }

  /** Segments without ';' yield only well-formed commands. */
  lemma ParseSegmentsWellFormed(segments: seq<string>)
    requires forall i :: 0 <= i < |segments| ==> ';' !in segments[i]
    ensures AllWellFormed(ParseSegments(segments))
  {
    FlatMapAll(Contribution, segments, WellFormed);
  }

  /** The lexer's result for a whole line: None for a comment line, otherwise
      the commands of its segments. */
  function ParseLine(line: string): (r: Option<seq<Command>>)
    ensures r.None? <==> HasComment(line)
    ensures r.Some? ==> |r.value| <= |Split(line, ';')|
  {
    if HasComment(line) then None else Some(ParseSegments(Split(line, ';')))
  }

  lemma WholePrefix<T>(s: seq<T>)
    ensures s[..|s|] == s
  {
  }

  /** `commandParser(line)`: walks the segments and collects the matches. */
  method CommandParser(line: string) returns (r: Option<seq<Command>>)
    ensures r == ParseLine(line)
    ensures r.None? <==> HasComment(line)
    ensures r.Some? ==> |r.value| <= |Split(line, ';')|
    ensures r.Some? ==> AllWellFormed(r.value)
  {
    if HasComment(line) {
      return None;
    }
    var commandList: seq<Command> := [];
    var segments := Split(line, ';');
    for i := 0 to |segments|
      invariant commandList == ParseSegments(segments[..i])
    {
      FlatMapSnoc(Contribution, segments, i);
      var m := MatchCall(Strip(segments[i]));
      if m.Some? {
        var (operation, text) := m.value;
        var argsList := StripAll(Split(text, ','));
        commandList := commandList + [Command(operation, argsList)];
      }
    }
    WholePrefix(segments);
    ParseSegmentsWellFormed(segments);
    return Some(commandList);
  }

  /** A call with empty parentheses, such as `dump()`, yields one command
      whose argument list is the single empty string. */
  lemma EmptyCallHasOneEmptyArgument(name: string)
    requires |name| > 0 && AllAlnum(name)
    ensures ParseLine(name + "()") == Some([Command(name, [""])])
  {
    var line := name + "()";
    EmptyCallIsOneSegment(name);
    EmptyCallSegment(name);
    assert Contribution(line) == [Command(name, [""])];
    assert [line][0] == line && [line][1..] == [];
    assert FlatMap(Contribution, [line]) == Contribution(line) + FlatMap(Contribution, []);
    assert ParseSegments([line]) == FlatMap(Contribution, [line]);
    assert FlatMap(Contribution, []) == [];
    assert [Command(name, [""])] + [] == [Command(name, [""])];
    assert ParseLine(line) == Some(ParseSegments([line]));
  }

  /** `name()` has no comment marker and no ';'. */
  lemma EmptyCallIsOneSegment(name: string)
    requires |name| > 0 && AllAlnum(name)
    ensures !HasComment(name + "()") && Split(name + "()", ';') == [name + "()"]
  {
    var line := name + "()";
    assert forall k :: 0 <= k < |name| ==> line[k] == name[k] && IsAlnum(name[k]);
    assert line[|name|] == '(' && line[|name| + 1] == ')';
    assert !HasComment(line) by {
      forall i | 0 <= i < |line| - 1 ensures !CommentAt(line, i) {
      }
    }
    assert ';' !in line;
    SplitWithoutSeparator(line, ';');
  }

  /** The segment `name()` is already stripped and matches with that name
      and empty argument text. */
  lemma EmptyCallSegment(name: string)
    requires |name| > 0 && AllAlnum(name)
    ensures ParseSegment(name + "()") == Some(Command(name, [""]))
  {
    var line := name + "()";
    AlnumIsNotSpace(name[0]);
    assert line[0] == name[0] && line[|line| - 1] == ')';
    AlreadyStripped(line);
    EmptyCallMatch(name);
    assert StripAll(Split("", ',')) == [""];
  }

  /** A string with no whitespace at either end is its own stripped form. */
  lemma AlreadyStripped(s: string)
    requires s != [] && !IsSpace(s[0]) && !IsSpace(s[|s| - 1])
    ensures Strip(s) == s
  {
    assert StripStart(s) == 0;
    assert StripEnd(s, 0, |s|) == |s|;
  }

  /** `name()` matches with the name and an empty argument text. */
  lemma EmptyCallMatch(name: string)
    requires |name| > 0 && AllAlnum(name)
    ensures MatchCall(name + "()") == Some((name, ""))
  {
    var line := name + "()";
    var n := |name|;
    assert line[n] == '(' && line[n + 1] == ')' && |line| == n + 2;
    assert AlnumPrefix(line) == n by {
      assert line[..n] == name;
      AlnumPrefixUnique(line, n);
    }
    assert line[n + 1..] == ")" && IndexOf(")", ')') == Some(0);
    assert line[..n] == name && line[n + 1..n + 1] == "";
  }

  /** A string without the separator is its own single piece. */
  lemma {:induction false} SplitWithoutSeparator(s: string, sep: char)
    requires sep !in s
    ensures Split(s, sep) == [s]
  {
    if s != [] {
      SplitWithoutSeparator(s[1..], sep);
      assert [s[0]] + s[1..] == s;
    }
  }

  /** The longest alphanumeric prefix is the one followed by a non-alphanumeric
      character or the end. */
  lemma AlnumPrefixUnique(s: string, n: nat)
    requires n <= |s| && AllAlnum(s[..n]) && (n == |s| || !IsAlnum(s[n]))
    ensures AlnumPrefix(s) == n
  {
    var p := AlnumPrefix(s);
    assert forall k :: 0 <= k < n ==> IsAlnum(s[k]) by {
      forall k | 0 <= k < n ensures IsAlnum(s[k]) { assert s[..n][k] == s[k]; }
    }
    assert forall k :: 0 <= k < p ==> IsAlnum(s[k]) by {
      forall k | 0 <= k < p ensures IsAlnum(s[k]) { assert s[..p][k] == s[k]; }
    }
  }
}
