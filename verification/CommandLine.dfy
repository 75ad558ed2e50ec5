/** Building the command line of the wrapped converter, and the rules by which it is taken apart again. */
module CommandLine {
  import opened Base

  type WChar = c: int | 0 <= c < 0x10000
  type WString = seq<WChar>

  const NUL: WChar := 0
  const TAB: WChar := 9
  const SPACE: WChar := 32
  const QUOTE: WChar := 34
  const BACKSLASH: WChar := 92

  // ---------------------------------------------------------------- quoting

  function Backslashes(n: nat): (r: WString)
    ensures |r| == n && forall i :: 0 <= i < n ==> r[i] == BACKSLASH
  {
    seq(n, i => BACKSLASH)
  }

  /** The text between the quotes for the rest `s` of an argument, `pending` backslashes having been read
      but not yet written. */
  function Body(s: WString, pending: nat): WString {
    if |s| == 0 then Backslashes(2 * pending)
    else if s[0] == BACKSLASH then Body(s[1..], pending + 1)
    else if s[0] == QUOTE then Backslashes(2 * pending) + [BACKSLASH, QUOTE] + Body(s[1..], 0)
    else Backslashes(pending) + [s[0]] + Body(s[1..], 0)
  }

  function Quoted(s: WString): WString { [QUOTE] + Body(s, 0) + [QUOTE] }

  function Arguments(args: seq<WString>): WString {
    if |args| == 0 then [] else [SPACE] + Quoted(args[0]) + Arguments(args[1..])
  }

  function Line(core: WString, args: seq<WString>): WString { Quoted(core) + Arguments(args) }

  predicate TerminatorFree(s: WString) { NUL !in s }

  lemma {:induction false} BodyBounds(s: WString, pending: nat)
    ensures |Body(s, pending)| <= 2 * |s| + 2 * pending
    ensures TerminatorFree(s) ==> TerminatorFree(Body(s, pending))
  {
    if |s| == 0 {
    } else {
      BodyBounds(s[1..], if s[0] == BACKSLASH then pending + 1 else 0);
    }
  }

  function ArgumentsCapacity(args: seq<WString>): nat {
    if |args| == 0 then 0 else ArgumentsCapacity(args[..|args| - 1]) + 2 * |args[|args| - 1]| + 4
  }

  /** The capacity the builder reserves, terminator not included. */
  function Capacity(core: WString, args: seq<WString>): nat {
    2 * |core| + 64 + ArgumentsCapacity(args)
  }

  lemma {:induction false} ArgumentsSnoc(args: seq<WString>, a: WString)
    ensures Arguments(args + [a]) == Arguments(args) + [SPACE] + Quoted(a)
  {
    if |args| == 0 {
      assert Arguments([a]) == [SPACE] + Quoted(a) + Arguments([]);
    } else {
      ArgumentsSnoc(args[1..], a);
      assert (args + [a])[1..] == args[1..] + [a];
    }
  }

  lemma {:induction false} ArgumentsFit(args: seq<WString>)
    ensures |Arguments(args)| <= ArgumentsCapacity(args)
    ensures (forall a :: a in args ==> TerminatorFree(a)) ==> TerminatorFree(Arguments(args))
  {
    if |args| == 0 {
    } else {
      var n := |args| - 1;
      ArgumentsFit(args[..n]);
      ArgumentsSnoc(args[..n], args[n]);
      assert args == args[..n] + [args[n]];
      BodyBounds(args[n], 0);
    }
  }

  /** The line with its terminator never exceeds the buffer, and holds no terminator before its end. */
  lemma LineFits(core: WString, args: seq<WString>)
    ensures |Line(core, args)| + 1 <= Capacity(core, args) + 1
    ensures TerminatorFree(core) && (forall a :: a in args ==> TerminatorFree(a)) ==> TerminatorFree(Line(core, args))
  {
    BodyBounds(core, 0);
    ArgumentsFit(args);
  }

  // ---------------------------------------------------------------- parsing

  predicate IsSpace(c: WChar) { c == SPACE || c == TAB }

  datatype Scan = Scan(arg: WString, rest: WString)

  /** One argument after the program name: backslashes are literal unless a quote follows; 2n of them and a
      quote give n and switch the quoted mode, 2n + 1 give n and a literal quote; outside the quoted mode
      white space ends the argument. */
  function ScanArgument(s: WString, quoted: bool, pending: nat, sofar: WString): (r: Scan)
    ensures |r.rest| <= |s|
    ensures |s| > 0 && !IsSpace(s[0]) ==> |r.rest| < |s|
  {
    if |s| == 0 then Scan(sofar + Backslashes(pending), [])
    else if s[0] == BACKSLASH then ScanArgument(s[1..], quoted, pending + 1, sofar)
    else if s[0] == QUOTE then
      if pending % 2 == 0 then ScanArgument(s[1..], !quoted, 0, sofar + Backslashes(pending / 2))
      else ScanArgument(s[1..], quoted, 0, sofar + Backslashes(pending / 2) + [QUOTE])
    else if !quoted && IsSpace(s[0]) then Scan(sofar + Backslashes(pending), s)
    else ScanArgument(s[1..], quoted, 0, sofar + Backslashes(pending) + [s[0]])
  }

  function ParseArguments(s: WString): seq<WString>
    decreases |s|
  {
    if |s| == 0 then []
    else if IsSpace(s[0]) then ParseArguments(s[1..])
    else
      var scan := ScanArgument(s, false, 0, []);
      [scan.arg] + ParseArguments(scan.rest)
  }

  /** How many characters precede the first one with the property. */
  function Until(s: WString, stop: WChar -> bool): (n: nat)
    ensures n <= |s| && (forall i :: 0 <= i < n ==> !stop(s[i])) && (n < |s| ==> stop(s[n]))
  {
    if |s| == 0 || stop(s[0]) then 0 else 1 + Until(s[1..], stop)
  }

  /** The program name is taken verbatim: up to the next quote if it starts with one, else up to white space. */
  function ParseProgram(line: WString): Scan {
    if |line| > 0 && line[0] == QUOTE then
      var n := Until(line[1..], c => c == QUOTE);
      Scan(line[1..][..n], if n < |line[1..]| then line[1..][n + 1..] else [])
    else
      var n := Until(line, IsSpace);
      Scan(line[..n], line[n..])
  }

  function ParseLine(line: WString): seq<WString> {
    var program := ParseProgram(line);
    [program.arg] + ParseArguments(program.rest)
  }

  // ---------------------------------------------------------------- parsing undoes quoting

  lemma {:induction false} ScanBackslashes(n: nat, s: WString, quoted: bool, pending: nat, sofar: WString)
    ensures ScanArgument(Backslashes(n) + s, quoted, pending, sofar) == ScanArgument(s, quoted, pending + n, sofar)
  {
    if n == 0 {
      assert Backslashes(0) + s == s;
    } else {
      assert (Backslashes(n) + s)[1..] == Backslashes(n - 1) + s;
      ScanBackslashes(n - 1, s, quoted, pending + 1, sofar);
    }
  }

  lemma ScanSwitchingQuote(pending: nat, after: WString, quoted: bool, sofar: WString)
    ensures ScanArgument(Backslashes(2 * pending) + ([QUOTE] + after), quoted, 0, sofar)
         == ScanArgument(after, !quoted, 0, sofar + Backslashes(pending))
  {
    ScanBackslashes(2 * pending, [QUOTE] + after, quoted, 0, sofar);
    assert ([QUOTE] + after)[1..] == after;
  }

  lemma ScanEscapedQuote(pending: nat, rest: WString, quoted: bool, sofar: WString)
    ensures ScanArgument(Backslashes(2 * pending) + ([BACKSLASH, QUOTE] + rest), quoted, 0, sofar)
         == ScanArgument(rest, quoted, 0, sofar + Backslashes(pending) + [QUOTE])
  {
    var s := [BACKSLASH, QUOTE] + rest;
    ScanBackslashes(2 * pending, s, quoted, 0, sofar);
    assert s[1..] == [QUOTE] + rest && s[1..][1..] == rest;
    assert (2 * pending + 1) / 2 == pending && (2 * pending + 1) % 2 == 1;
  }

  lemma ScanOrdinary(pending: nat, c: WChar, rest: WString, quoted: bool, sofar: WString)
    requires c != QUOTE && c != BACKSLASH && (quoted || !IsSpace(c))
    ensures ScanArgument(Backslashes(pending) + ([c] + rest), quoted, 0, sofar)
         == ScanArgument(rest, quoted, 0, sofar + Backslashes(pending) + [c])
  {
    ScanBackslashes(pending, [c] + rest, quoted, 0, sofar);
    assert ([c] + rest)[1..] == rest;
  }

  lemma Regroup(a: WString, b: WString, c: WString, d: WString)
    ensures (a + b + c) + d == a + (b + (c + d))
    ensures a + b + c + d == a + b + (c + d)
  {
  }

  lemma OneMoreBackslash(sofar: WString, pending: nat, s: WString)
    requires |s| > 0 && s[0] == BACKSLASH
    ensures sofar + Backslashes(pending + 1) + s[1..] == sofar + Backslashes(pending) + s
  {
  }

  lemma NextCharacter(sofar: WString, s: WString)
    requires |s| > 0
    ensures sofar + [s[0]] + Backslashes(0) + s[1..] == sofar + s
  {
  }

  /** Scanning what was printed for `s` up to the closing quote yields `s`. */
  lemma {:induction false} ScanBody(s: WString, pending: nat, sofar: WString, after: WString)
    ensures ScanArgument(Body(s, pending) + ([QUOTE] + after), true, 0, sofar)
         == ScanArgument(after, false, 0, sofar + Backslashes(pending) + s)
  {
    if |s| == 0 {
      ScanSwitchingQuote(pending, after, true, sofar);
      assert sofar + Backslashes(pending) + s == sofar + Backslashes(pending);
    } else if s[0] == BACKSLASH {
      ScanBody(s[1..], pending + 1, sofar, after);
      OneMoreBackslash(sofar, pending, s);
    } else {
      var body, end := Body(s[1..], 0), [QUOTE] + after;
      var next := sofar + Backslashes(pending) + [s[0]];
      ScanBody(s[1..], 0, next, after);
      NextCharacter(sofar + Backslashes(pending), s);
      if s[0] == QUOTE {
        ScanEscapedQuote(pending, body + end, true, sofar);
        Regroup(Backslashes(2 * pending), [BACKSLASH, QUOTE], body, end);
      } else {
        ScanOrdinary(pending, s[0], body + end, true, sofar);
        Regroup(Backslashes(pending), [s[0]], body, end);
      }
    }
  }

  lemma OpenQuoted(text: WString)
    ensures ScanArgument([QUOTE] + text, false, 0, []) == ScanArgument(text, true, 0, [])
  {
    ScanSwitchingQuote(0, text, false, []);
    assert Backslashes(2 * 0) + ([QUOTE] + text) == [QUOTE] + text;
    assert [] + Backslashes(0) == [];
  }

  lemma EndOfArgument(after: WString, a: WString)
    requires |after| == 0 || after[0] == SPACE
    ensures ScanArgument(after, false, 0, a) == Scan(a, after)
  {
    assert a + Backslashes(0) == a;
  }

  lemma ScanQuoted(a: WString, after: WString)
    requires |after| == 0 || after[0] == SPACE
    ensures ScanArgument(Quoted(a) + after, false, 0, []) == Scan(a, after)
  {
    var text := Body(a, 0) + ([QUOTE] + after);
    assert Quoted(a) + after == [QUOTE] + text;
    OpenQuoted(text);
    ScanBody(a, 0, [], after);
    assert [] + Backslashes(0) + a == a;
    EndOfArgument(after, a);
  }

  lemma ParsedOne(s: WString, a: WString, rest: WString)
    requires |s| > 0 && s[0] == QUOTE && ScanArgument(s, false, 0, []) == Scan(a, rest)
    ensures ParseArguments([SPACE] + s) == [a] + ParseArguments(rest)
  {
    assert ([SPACE] + s)[1..] == s;
    assert ParseArguments(s) == [a] + ParseArguments(rest);
  }

  lemma ParsedQuoted(a: WString, rest: WString)
    requires |rest| == 0 || rest[0] == SPACE
    ensures ParseArguments([SPACE] + (Quoted(a) + rest)) == [a] + ParseArguments(rest)
  {
    ScanQuoted(a, rest);
    ParsedOne(Quoted(a) + rest, a, rest);
  }

  lemma Reassociate(a: WString, b: WString, c: WString)
    ensures (a + b) + c == a + (b + c)
  {
  }

  lemma ArgumentsStart(args: seq<WString>)
    ensures |args| == 0 <==> |Arguments(args)| == 0
    ensures |args| > 0 ==> Arguments(args) == [SPACE] + (Quoted(args[0]) + Arguments(args[1..]))
    ensures |Arguments(args)| == 0 || Arguments(args)[0] == SPACE
  {
    if |args| > 0 {
      Reassociate([SPACE], Quoted(args[0]), Arguments(args[1..]));
    }
  }

  /** Whatever the arguments are, parsing the tail of the line gives them back. */
  lemma {:induction false} ArgumentsRoundTrip(args: seq<WString>)
    ensures ParseArguments(Arguments(args)) == args
  {
    ArgumentsStart(args);
    if |args| == 0 {
    } else {
      ArgumentsStart(args[1..]);
      ParsedQuoted(args[0], Arguments(args[1..]));
      ArgumentsRoundTrip(args[1..]);
      assert args == [args[0]] + args[1..];
    }
  }

  lemma PlainCharacter(before: WString, s: WString, trailing: WString)
    requires |s| > 0
    ensures before + [s[0]] + (Backslashes(0) + s[1..] + trailing) == before + s + trailing
  {
  }

  /** How many backslashes `s` ends with, `pending` more standing in front of it. */
  function Trailing(s: WString, pending: nat): (n: nat)
    ensures |s| > 0 ==> (n > 0 <==> s[|s| - 1] == BACKSLASH)
  {
    if |s| == 0 then pending else Trailing(s[1..], if s[0] == BACKSLASH then pending + 1 else 0)
  }

  /** What the program name comes back as when it holds no quote: backslashes at its end are doubled. */
  lemma {:induction false} PlainBody(s: WString, pending: nat)
    requires QUOTE !in s
    ensures Body(s, pending) == Backslashes(pending) + s + Backslashes(Trailing(s, pending))
  {
    if |s| == 0 {
      assert Backslashes(2 * pending) == Backslashes(pending) + s + Backslashes(pending);
    } else if s[0] == BACKSLASH {
      PlainBody(s[1..], pending + 1);
      OneMoreBackslash([], pending, s);
      assert [] + Backslashes(pending + 1) == Backslashes(pending + 1)
        && [] + Backslashes(pending) == Backslashes(pending);
    } else {
      var trailing := Backslashes(Trailing(s[1..], 0));
      PlainBody(s[1..], 0);
      PlainCharacter(Backslashes(pending), s, trailing);
    }
  }

  lemma PlainBodyHasNoQuote(s: WString)
    requires QUOTE !in s
    ensures QUOTE !in Body(s, 0)
  {
    PlainBody(s, 0);
  }

  lemma UntilQuote(s: WString, after: WString)
    requires QUOTE !in s
    ensures Until(s + [QUOTE] + after, c => c == QUOTE) == |s|
  {
    var t := s + [QUOTE] + after;
    var n := Until(t, c => c == QUOTE);
    assert t[|s|] == QUOTE;
    forall i | 0 <= i < |s| ensures t[i] != QUOTE {
      assert s[i] in s;
    }
  }

  predicate PlainName(core: WString) { QUOTE !in core && (|core| > 0 ==> core[|core| - 1] != BACKSLASH) }

  // ---------------------------------------------------------------- a quote inside the program name

  predicate HasSpace(s: WString) { exists i :: 0 <= i < |s| && IsSpace(s[i]) }

  /** The arguments still to come when one has been begun. */
  function Continue(s: WString, quoted: bool, sofar: WString): (r: seq<WString>)
    ensures |r| > 0
  {
    var scan := ScanArgument(s, quoted, 0, sofar);
    [scan.arg] + ParseArguments(scan.rest)
  }

  lemma SpaceInTail(s: WString)
    requires |s| > 0 && !IsSpace(s[0])
    ensures HasSpace(s) <==> HasSpace(s[1..])
  {
    if HasSpace(s) {
      var i :| 0 <= i < |s| && IsSpace(s[i]);
      assert s[1..][i - 1] == s[i];
    } else {
      assert forall i :: 0 <= i < |s[1..]| ==> s[1..][i] == s[i + 1];
    }
  }

  lemma EndAtSpace(pending: nat, c: WChar, rest: WString, sofar: WString)
    requires IsSpace(c)
    ensures Continue(Backslashes(pending) + ([c] + rest), false, sofar) ==
      [sofar + Backslashes(pending)] + ParseArguments(rest)
  {
    ScanBackslashes(pending, [c] + rest, false, 0, sofar);
    assert ([c] + rest)[1..] == rest;
  }

  lemma {:induction false} BodyOfPending(s: WString, pending: nat)
    requires pending > 0
    ensures |Body(s, pending)| > 0 && Body(s, pending)[0] == BACKSLASH
  {
    if |s| > 0 && s[0] == BACKSLASH {
      BodyOfPending(s[1..], pending + 1);
    }
  }

  lemma BodyStart(s: WString, end: WString)
    requires |s| > 0 ==> !IsSpace(s[0])
    requires |end| > 0 && end[0] == QUOTE
    ensures var text := Body(s, 0) + end; |text| > 0 && !IsSpace(text[0])
  {
    if |s| > 0 && s[0] == BACKSLASH {
      BodyOfPending(s[1..], 1);
    }
  }

  /** The same from where no argument has been begun. */
  lemma {:induction false} StartInsideOut(s: WString, after: WString) returns (ended: seq<WString>, begun: WString)
    ensures ParseArguments(Body(s, 0) + ([QUOTE] + after)) == ended + Continue(after, true, begun)
    ensures |begun| <= |s|
    decreases |s|, 1
  {
    var text := Body(s, 0) + ([QUOTE] + after);
    if |s| > 0 && IsSpace(s[0]) {
      assert text[1..] == Body(s[1..], 0) + ([QUOTE] + after);
      ended, begun := StartInsideOut(s[1..], after);
    } else {
      BodyStart(s, [QUOTE] + after);
      ended, begun := ReadInsideOut(s, 0, [], after);
    }
  }

  /** Printed text read outside the quoted mode: white space splits it, its closing quote begins the quoted mode
      instead of ending it. What has been begun then is the whole text if it has no white space, else less of it. */
  lemma {:induction false} ReadInsideOut(s: WString, pending: nat, sofar: WString, after: WString)
    returns (ended: seq<WString>, begun: WString)
    ensures Continue(Body(s, pending) + ([QUOTE] + after), false, sofar) == ended + Continue(after, true, begun)
    ensures if HasSpace(s) then |begun| < |s| else begun == sofar + Backslashes(pending) + s
    decreases |s|, 0
  {
    if |s| == 0 {
      ScanSwitchingQuote(pending, after, false, sofar);
      ended, begun := [], sofar + Backslashes(pending);
      assert begun + s == begun;
    } else if s[0] == BACKSLASH {
      SpaceInTail(s);
      ended, begun := ReadInsideOut(s[1..], pending + 1, sofar, after);
      OneMoreBackslash(sofar, pending, s);
    } else if IsSpace(s[0]) {
      var rest := Body(s[1..], 0) + ([QUOTE] + after);
      Regroup(Backslashes(pending), [s[0]], Body(s[1..], 0), [QUOTE] + after);
      EndAtSpace(pending, s[0], rest, sofar);
      ended, begun := StartInsideOut(s[1..], after);
      ended := [sofar + Backslashes(pending)] + ended;
    } else {
      SpaceInTail(s);
      var body, end := Body(s[1..], 0), [QUOTE] + after;
      if s[0] == QUOTE {
        ScanEscapedQuote(pending, body + end, false, sofar);
        Regroup(Backslashes(2 * pending), [BACKSLASH, QUOTE], body, end);
      } else {
        ScanOrdinary(pending, s[0], body + end, false, sofar);
        Regroup(Backslashes(pending), [s[0]], body, end);
      }
      NextCharacter(sofar + Backslashes(pending), s);
      ended, begun := ReadInsideOut(s[1..], 0, sofar + Backslashes(pending) + [s[0]], after);
    }
  }

  /** Inside the quoted mode a separator belongs to the argument and an opening quote ends the mode. */
  lemma OpenInsideOut(text: WString, sofar: WString)
    ensures ScanArgument([SPACE, QUOTE] + text, true, 0, sofar) == ScanArgument(text, false, 0, sofar + [SPACE])
  {
    ScanOrdinary(0, SPACE, [QUOTE] + text, true, sofar);
    ScanSwitchingQuote(0, text, true, sofar + [SPACE]);
    assert Backslashes(0) + ([SPACE] + ([QUOTE] + text)) == [SPACE, QUOTE] + text;
    assert Backslashes(2 * 0) + ([QUOTE] + text) == [QUOTE] + text;
    assert sofar + Backslashes(0) + [SPACE] == sofar + [SPACE] && sofar + [SPACE] + Backslashes(0) == sofar + [SPACE];
  }

  lemma OneArgument(args: seq<WString>, sofar: WString) returns (ended: seq<WString>, begun: WString)
    requires |args| > 0
    ensures Continue(Arguments(args), true, sofar) == ended + Continue(Arguments(args[1..]), true, begun)
    ensures begun != args[0]
  {
    var a, after := args[0], Arguments(args[1..]);
    var text := Body(a, 0) + ([QUOTE] + after);
    assert Arguments(args) == [SPACE, QUOTE] + text;
    OpenInsideOut(text, sofar);
    ended, begun := ReadInsideOut(a, 0, sofar + [SPACE], after);
  }

  /** Read from inside the quoted mode, the tail of a line ends in an argument that is longer or shorter than the last
      one. */
  lemma {:induction false} LastArgumentDiffers(args: seq<WString>, sofar: WString)
    requires |args| > 0
    ensures var r := Continue(Arguments(args), true, sofar); r[|r| - 1] != args[|args| - 1]
  {
    var ended, begun := OneArgument(args, sofar);
    if |args| == 1 {
      assert Arguments(args[1..]) == [];
      assert begun + Backslashes(0) == begun;
      assert Continue([], true, begun) == [begun];
    } else {
      LastArgumentDiffers(args[1..], begun);
    }
  }

  /** Where the first quote of a name ends up in its printed form. */
  lemma {:induction false} FirstQuote(core: WString, pending: nat) returns (before: WString, tail: WString)
    requires QUOTE in core
    ensures QUOTE !in before && Body(core, pending) == before + [QUOTE] + Body(tail, 0)
  {
    if core[0] == BACKSLASH {
      before, tail := FirstQuote(core[1..], pending + 1);
    } else if core[0] == QUOTE {
      before, tail := Backslashes(2 * pending) + [BACKSLASH], core[1..];
    } else {
      before, tail := FirstQuote(core[1..], 0);
      before := Backslashes(pending) + [core[0]] + before;
    }
  }

  lemma CutProgram(name: WString, rest: WString)
    requires QUOTE !in name
    ensures ParseProgram([QUOTE] + (name + [QUOTE] + rest)) == Scan(name, rest)
  {
    var line := [QUOTE] + (name + [QUOTE] + rest);
    assert line[1..] == name + [QUOTE] + rest;
    UntilQuote(name, rest);
    assert line[1..][..|name|] == name && line[1..][|name| + 1..] == rest;
  }

  lemma CutAtFirstQuote(core: WString, args: seq<WString>) returns (tail: WString)
    requires QUOTE in core
    ensures ParseProgram(Line(core, args)).rest == Body(tail, 0) + ([QUOTE] + Arguments(args))
  {
    var before;
    before, tail := FirstQuote(core, 0);
    CutProgram(before, Body(tail, 0) + ([QUOTE] + Arguments(args)));
    assert Line(core, args) == [QUOTE] + (before + [QUOTE] + (Body(tail, 0) + ([QUOTE] + Arguments(args))));
  }

  /** A quote in the program name spoils the arguments, whatever they are. */
  lemma QuoteSpoilsArguments(core: WString, args: seq<WString>)
    requires QUOTE in core
    ensures ParseArguments(ParseProgram(Line(core, args)).rest) != args
  {
    var tail := CutAtFirstQuote(core, args);
    var ended, begun := StartInsideOut(tail, Arguments(args));
    if |args| > 0 {
      LastArgumentDiffers(args, begun);
    }
  }

  lemma LoneQuote()
    ensures ParseArguments([QUOTE]) == [[]]
  {
    OpenQuoted([]);
    assert [QUOTE] + [] == [QUOTE];
    assert ScanArgument([], true, 0, []) == Scan([], []);
  }

  /** The shortest case: the name is one quote, there is no argument, and one comes back. */
  lemma QuoteAloneGivesAnArgument()
    ensures ParseLine(Line([QUOTE], []))[1..] == [[]]
  {
    assert Line([QUOTE], []) == [QUOTE] + ([BACKSLASH] + [QUOTE] + [QUOTE]) by {
      assert Body([QUOTE], 0) == [BACKSLASH, QUOTE];
    }
    CutProgram([BACKSLASH], [QUOTE]);
    LoneQuote();
  }

  lemma PlainProgram(core: WString, args: seq<WString>)
    requires QUOTE !in core
    ensures ParseProgram(Line(core, args)) == Scan(Body(core, 0), Arguments(args))
  {
    PlainBodyHasNoQuote(core);
    CutProgram(Body(core, 0), Arguments(args));
    assert Line(core, args) == [QUOTE] + (Body(core, 0) + [QUOTE] + Arguments(args));
  }

  lemma NameSurvives(core: WString)
    requires QUOTE !in core
    ensures Body(core, 0) == core <==> PlainName(core)
  {
    PlainBody(core, 0);
    assert |Body(core, 0)| == |core| + Trailing(core, 0);
    if Trailing(core, 0) == 0 {
      assert Backslashes(0) + core + Backslashes(0) == core;
    }
  }

  lemma NoQuoteInProgram(line: WString)
    requires |line| > 0 && line[0] == QUOTE
    ensures QUOTE !in ParseProgram(line).arg
  {
  }

  /** Taking the built line apart gives the arguments back exactly when the program name holds no quote, whatever the
      arguments are; the program name comes back exactly when, besides, it does not end in a backslash. */
  lemma LineRoundTrip(core: WString, args: seq<WString>)
    ensures ParseLine(Line(core, args))[1..] == args <==> QUOTE !in core
    ensures ParseLine(Line(core, args))[0] == core <==> PlainName(core)
  {
    if QUOTE in core {
      NoQuoteInProgram(Line(core, args));
      QuoteSpoilsArguments(core, args);
    } else {
      PlainProgram(core, args);
      ArgumentsRoundTrip(args);
      NameSurvives(core);
    }
  }

  // ---------------------------------------------------------------- the buffer

  method Put(out: array<WChar>, at: nat, c: WChar) returns (n: nat)
    requires at < out.Length
    modifies out
    ensures n == at + 1 && out[..n] == old(out[..at]) + [c]
    ensures forall k :: n <= k < out.Length ==> out[k] == old(out[k])
  {
    out[at] := c;
    n := at + 1;
  }

  method PutBackslashes(out: array<WChar>, at: nat, count: nat) returns (n: nat)
    requires at + count <= out.Length
    modifies out
    ensures n == at + count && out[..n] == old(out[..at]) + Backslashes(count)
    ensures forall k :: n <= k < out.Length ==> out[k] == old(out[k])
  {
    var left := count;
    n := at;
    while left > 0
      invariant 0 <= left <= count && n == at + count - left
      invariant forall k :: 0 <= k < at ==> out[k] == old(out[k])
      invariant forall k :: at <= k < n ==> out[k] == BACKSLASH
      invariant forall k :: n <= k < out.Length ==> out[k] == old(out[k])
    {
      out[n] := BACKSLASH;
      n, left := n + 1, left - 1;
    }
  }

  /** What is written for the next character once `pending` backslashes have been held back. */
  function Piece(pending: nat, c: WChar): WString {
    if c == BACKSLASH then []
    else if c == QUOTE then Backslashes(2 * pending) + [BACKSLASH, QUOTE]
    else Backslashes(pending) + [c]
  }

  lemma BodyByPieces(s: WString, i: nat, pending: nat)
    requires i < |s|
    ensures Body(s[i..], pending) ==
      Piece(pending, s[i]) + Body(s[i + 1..], if s[i] == BACKSLASH then pending + 1 else 0)
  {
    assert s[i..][1..] == s[i + 1..];
  }

  method PutPiece(out: array<WChar>, at: nat, pending: nat, c: WChar) returns (n: nat, left: nat)
    requires at + |Piece(pending, c)| <= out.Length
    modifies out
    ensures n == at + |Piece(pending, c)| && out[..n] == old(out[..at]) + Piece(pending, c)
    ensures left == if c == BACKSLASH then pending + 1 else 0
    ensures forall k :: n <= k < out.Length ==> out[k] == old(out[k])
  {
    if c == BACKSLASH {
      return at, pending + 1;
    }
    if c == QUOTE {
      n := PutBackslashes(out, at, 2 * pending);
      n := Put(out, n, BACKSLASH);
      n := Put(out, n, QUOTE);
    } else {
      n := PutBackslashes(out, at, pending);
      n := Put(out, n, c);
    }
    left := 0;
  }

  lemma Shift(a: WString, b: WString, c: WString, d: WString)
    ensures a + ((b + c) + d) == (a + b) + (c + d)
  {
  }

  /** Prints one argument and a terminator at `at`, and touches nothing behind them. */
  method QuoteArg(out: array<WChar>, at: nat, s: WString) returns (n: nat)
    requires at + |Quoted(s)| + 1 <= out.Length
    modifies out
    ensures n == |Quoted(s)| && out[..at + n] == old(out[..at]) + Quoted(s) && out[at + n] == NUL
    ensures forall k :: at + n < k < out.Length ==> out[k] == old(out[k])
  {
    ghost var whole := old(out[..at]) + Quoted(s);
    var end: nat := Put(out, at, QUOTE);
    var bs, i := 0, 0;
    assert s[0..] == s;
    assert whole == out[..end] + (Body(s, 0) + [QUOTE]);
    while i < |s|
      invariant 0 <= i <= |s| && end <= out.Length
      invariant whole == out[..end] + (Body(s[i..], bs) + [QUOTE])
      invariant forall k :: end <= k < out.Length ==> out[k] == old(out[k])
    {
      BodyByPieces(s, i, bs);
      ghost var piece, rest := Piece(bs, s[i]), Body(s[i + 1..], if s[i] == BACKSLASH then bs + 1 else 0);
      Shift(out[..end], piece, rest, [QUOTE]);
      assert |whole| == at + |Quoted(s)|;
      end, bs := PutPiece(out, end, bs, s[i]);
      i := i + 1;
    }
    assert |whole| == at + |Quoted(s)|;
    end := PutBackslashes(out, end, 2 * bs);
    end := Put(out, end, QUOTE);
    assert out[..end] == whole;
    out[end] := NUL;
    n := end - at;
    assert out[..end] == whole;
  }

  /** The arguments handed on. */
  function Passed(argv: seq<WString>, replaced: int, replacement: WString): (r: seq<WString>)
    requires |argv| > 0
    ensures |r| == |argv| - 1
    ensures forall i :: 1 <= i < |argv| ==> r[i - 1] == if i == replaced then replacement else argv[i]
  {
    seq(|argv| - 1, i requires 0 <= i < |argv| - 1 => if i + 1 == replaced then replacement else argv[i + 1])
  }

  method Reserve(argv: seq<WString>, core: WString, replaced: int, replacement: WString) returns (cap: nat)
    requires |argv| > 0
    ensures cap == Capacity(core, Passed(argv, replaced, replacement))
  {
    ghost var args := Passed(argv, replaced, replacement);
    cap := |core| * 2 + 64;
    for i := 1 to |argv|
      invariant cap == 2 * |core| + 64 + ArgumentsCapacity(args[..i - 1])
    {
      assert args[..i][..i - 1] == args[..i - 1];
      cap := cap + |if i == replaced then replacement else argv[i]| * 2 + 4;
    }
    assert args[..|argv| - 1] == args;
  }

  /** Appends a separator and one argument to a terminated line. */
  method AppendArgument(buffer: array<WChar>, at: nat, arg: WString) returns (n: nat)
    requires at + 1 + |Quoted(arg)| < buffer.Length
    modifies buffer
    ensures n == at + 1 + |Quoted(arg)| && buffer[..n] == old(buffer[..at]) + [SPACE] + Quoted(arg) && buffer[n] == NUL
  {
    var start := Put(buffer, at, SPACE);
    var written := QuoteArg(buffer, start, arg);
    n := start + written;
  }

  lemma {:induction false} CapacityGrows(args: seq<WString>, k: nat)
    requires k <= |args|
    ensures ArgumentsCapacity(args[..k]) <= ArgumentsCapacity(args)
  {
    if k == |args| {
      assert args[..k] == args;
    } else {
      CapacityGrows(args[..|args| - 1], k);
      assert args[..|args| - 1][..k] == args[..k];
    }
  }

  /** The line after one more argument still leaves room for its terminator. */
  lemma LineGrows(core: WString, args: seq<WString>, k: nat)
    requires k < |args|
    ensures Line(core, args[..k + 1]) == Line(core, args[..k]) + [SPACE] + Quoted(args[k])
    ensures |Line(core, args[..k + 1])| < Capacity(core, args) + 1
  {
    assert args[..k + 1] == args[..k] + [args[k]];
    ArgumentsSnoc(args[..k], args[k]);
    LineFits(core, args[..k + 1]);
    CapacityGrows(args, k + 1);
  }

  /** The line for the wrapped converter: its path, then every argument but the program's own name, the one at
      `replaced` exchanged for `replacement`. None when the allocation fails. */
  method BuildCmd(argv: seq<WString>, core: WString, replaced: int, replacement: WString, hasMemory: bool)
    returns (b: Option<array<WChar>>, n: nat)
    requires |argv| > 0
    ensures b.None? <==> !hasMemory
    ensures b.Some? ==> fresh(b.value) && b.value.Length == Capacity(core, Passed(argv, replaced, replacement)) + 1
    ensures b.Some? ==> n < b.value.Length && b.value[n] == NUL
    ensures b.Some? ==> b.value[..n] == Line(core, Passed(argv, replaced, replacement))
  {
    ghost var args := Passed(argv, replaced, replacement);
    var cap := Reserve(argv, core, replaced, replacement);
    if !hasMemory {
      return None, 0;
    }
    var buffer := new WChar[cap + 1](_ => NUL);
    BodyBounds(core, 0);
    n := QuoteArg(buffer, 0, core);
    assert Line(core, args[..0]) == Quoted(core);
    for i := 1 to |argv|
      invariant n < buffer.Length
      invariant buffer[..n] == Line(core, args[..i - 1]) && buffer[n] == NUL
    {
      LineGrows(core, args, i - 1);
      n := AppendArgument(buffer, n, if i == replaced then replacement else argv[i]);
    }
    assert args[..|argv| - 1] == args;
    return Some(buffer), n;
  }
}
