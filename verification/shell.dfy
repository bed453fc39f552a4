/**
 * Shell: parses a command line into a command, and an add or remove argument
 * into edits of the character set, and carries them out on the parameters.
 */
module AsciiArtShell {
  import opened Wrappers
  import opened CodeUnits
  import opened Glyphs
  import opened Images
  import opened CharLists
  import opened BrightnessIndex
  import opened MatcherSpec
  import opened CharMatching
  import opened AsciiArtParameters
  import opened AsciiArtAlgorithms

  // ---------------------------------------------------------------------------
  // Shell: command parsing
  // ---------------------------------------------------------------------------

  const SPACE: CodeUnit := 32
  /** The code points "add all" adds: ' ' through '~'. */
  const FIRST_PRINTABLE: int := 32
  const LAST_PRINTABLE: int := 126

  /** What a command line asks for, as executeCommand and executeRemainsCommands tell it. */
  datatype Command =
    | ShowChars
    | ResUp
    | ResDown
    | OutputConsole
    | OutputHtml
    | RunArt
    | Edit(arg: seq<CodeUnit>, add: bool)
    | ChangeImage(path: seq<CodeUnit>)
    /** "image" with nothing after it: substring(6) is out of bounds and throws. */
    | ImageOutOfBounds
    | IncorrectCommand

  predicate StartsWith(s: seq<CodeUnit>, prefix: seq<CodeUnit>)
  {
    |prefix| <= |s| && s[..|prefix|] == prefix
  }

  /**
   * executeRemainsCommands: the prefixes "add " and "remove " (their rest is
   * the argument) and "image" (everything after its sixth character is the
   * path, whatever that sixth character is).
   */
  function RemainingCommand(cmd: seq<CodeUnit>): (c: Command)
    ensures c.Edit? ==> cmd == (if c.add then Units("add ") else Units("remove ")) + c.arg
    ensures c.ChangeImage? ==> |cmd| >= 6 && cmd[..5] == Units("image") && cmd[6..] == c.path
    ensures c.ImageOutOfBounds? <==> cmd == Units("image")
    ensures StartsWith(cmd, Units("image")) && |cmd| >= 6 ==> c == ChangeImage(cmd[6..])
    ensures c.IncorrectCommand? <==>
      !StartsWith(cmd, Units("add ")) && !StartsWith(cmd, Units("remove ")) && !StartsWith(cmd, Units("image"))
  {
    if StartsWith(cmd, Units("add ")) then
      assert cmd[0] == Units("add ")[0] != Units("image")[0];
      Edit(cmd[4..], true)
    else if StartsWith(cmd, Units("remove ")) then
      assert cmd[0] == Units("remove ")[0] != Units("image")[0];
      Edit(cmd[7..], false)
    else if StartsWith(cmd, Units("image")) then
      if |cmd| >= 6 then ChangeImage(cmd[6..]) else ImageOutOfBounds
    else IncorrectCommand
  }

  /** The exact commands of executeCommand's switch are matched before any prefix. */
  predicate IsExactCommand(cmd: seq<CodeUnit>)
  {
    || cmd == Units("chars") || cmd == Units("res up") || cmd == Units("res down")
    || cmd == Units("output console") || cmd == Units("output html") || cmd == Units("asciiArt")
  }

  /** executeCommand's switch, falling back to executeRemainsCommands. */
  function Classify(cmd: seq<CodeUnit>): (c: Command)
    ensures !IsExactCommand(cmd) ==> c == RemainingCommand(cmd)
    ensures IsExactCommand(cmd) <==> c.ShowChars? || c.ResUp? || c.ResDown? || c.OutputConsole? || c.OutputHtml? || c.RunArt?
  {
    if cmd == Units("chars") then ShowChars
    else if cmd == Units("res up") then ResUp
    else if cmd == Units("res down") then ResDown
    else if cmd == Units("output console") then OutputConsole
    else if cmd == Units("output html") then OutputHtml
    else if cmd == Units("asciiArt") then RunArt
    else RemainingCommand(cmd)
  }

  /** Every "add " command reaches the edit parser with exactly its rest. */
  lemma ClassifyAdd(arg: seq<CodeUnit>)
    ensures Classify(Units("add ") + arg) == Edit(arg, true)
  {
    var a := Units("add ") + arg;
    assert a[..4] == Units("add ") && a[4..] == arg;
    assert a[0] == Unit('a') && a[1] == Unit('d');
  }

  /** Every "remove " command reaches the edit parser with exactly its rest. */
  lemma ClassifyRemove(arg: seq<CodeUnit>)
    ensures Classify(Units("remove ") + arg) == Edit(arg, false)
  {
    var r := Units("remove ") + arg;
    assert r[..7] == Units("remove ") && r[7..] == arg;
    assert r[0] == Unit('r') && r[2] == Unit('m');
  }

  /** The edits an argument of add or remove stands for. */
  datatype EditPlan =
    | Codes(codes: seq<CodeUnit>)
    /** "remove all": the matcher is replaced by one on the empty set. */
    | ClearAll
    /** An argument of none of the forms: only an error message. */
    | NoEdit

  /** The code points lo..hi in ascending order. */
  function Range(lo: int, hi: int): (r: seq<CodeUnit>)
    requires 0 <= lo && hi < 0x1_0000
    ensures |r| == if lo <= hi then hi - lo + 1 else 0
    ensures forall k :: 0 <= k < |r| ==> r[k] as int == lo + k
  {
    if lo > hi then [] else seq(hi - lo + 1, k requires 0 <= k < hi - lo + 1 => (lo + k) as CodeUnit)
  }

  /**
   * executeAddRemove's branches in order: one character (so "-" is the
   * character '-'), the word "space", a range "x-y" in either order, the
   * word "all", anything else.
   */
  function Plan(arg: seq<CodeUnit>, add: bool): (p: EditPlan)
    ensures p.Codes? ==> StrictlySorted(p.codes) && p.codes != []
    ensures p.ClearAll? <==> arg == Units("all") && !add
  {
    if |arg| == 1 then Codes([arg[0]])
    else if arg == Units("space") then Codes([SPACE])
    else if |arg| == 3 && arg[1] == Unit('-') then
      Codes(Range(Min(arg[0] as int, arg[2] as int), Max(arg[0] as int, arg[2] as int)))
    else if arg == Units("all") then
      if add then Codes(Range(FIRST_PRINTABLE, LAST_PRINTABLE)) else ClearAll
    else NoEdit
  }

  /**
   * A range edits every code point between its two ends, inclusive, in
   * ascending order, whichever end is written first.
   */
  lemma PlanRange(x: CodeUnit, y: CodeUnit, add: bool)
    ensures Plan([x, Unit('-'), y], add) == Plan([y, Unit('-'), x], add)
    ensures var p := Plan([x, Unit('-'), y], add);
      && p.Codes?
      && (forall c :: c in p.codes <==> Min(x as int, y as int) <= c as int <= Max(x as int, y as int))
      && p.codes[0] as int == Min(x as int, y as int)
      && p.codes[|p.codes| - 1] as int == Max(x as int, y as int)
  {
    var p := Plan([x, Unit('-'), y], add);
    var lo, hi := Min(x as int, y as int), Max(x as int, y as int);
    assert p.codes == Range(lo, hi);
    forall c | lo <= c as int <= hi
      ensures c in p.codes
    {
      assert p.codes[c as int - lo] == c;
    }
  }

  /** "add all" edits exactly the printable ASCII characters, space to tilde. */
  lemma PlanAll()
    ensures var p := Plan(Units("all"), true);
      p.Codes? && forall c :: c in p.codes <==> FIRST_PRINTABLE <= c as int <= LAST_PRINTABLE
  {
    var p := Plan(Units("all"), true);
    assert p.codes == Range(FIRST_PRINTABLE, LAST_PRINTABLE);
    forall c | FIRST_PRINTABLE <= c as int <= LAST_PRINTABLE
      ensures c in p.codes
    {
      assert p.codes[c as int - FIRST_PRINTABLE] == c;
    }
  }

  // ---------------------------------------------------------------------------
  // Shell: executing commands
  // ---------------------------------------------------------------------------

  /** Where asciiArt sends the grid (the static asciiOutput). */
  datatype Output = ConsoleOutput | HtmlOutput(fileName: seq<CodeUnit>, fontName: seq<CodeUnit>)

  /** The file and font "output html" selects. */
  const HTML_OUTPUT: Output := HtmlOutput(Units("html.out "), Units("Courier New"))

  /** The messages the shell reports instead of acting. */
  datatype Message =
    | NoChars
    | IncorrectFormat(add: bool)
    | IncorrectCommandFormat
    /** The StringIndexOutOfBoundsException that substring(6) throws on "image". */
    | ImageIndexOutOfBounds

  /** A nonempty range starts at its lower end and continues with the range above it. */
  lemma RangeFirst(lo: int, hi: int)
    requires 0 <= lo <= hi < 0x1_0000
    ensures Range(lo, hi) != [] && Range(lo, hi)[0] == lo as CodeUnit && Range(lo, hi)[1..] == Range(lo + 1, hi)
  {
  }

  /** One step of a replay on a nonempty list of codes: the first edit is defined and the rest replays from its result. */
  lemma ReplayFirst(render: Rasterizer, st: State, cache: MatcherCache, codes: seq<CodeUnit>, add: bool)
    requires Ordered(st.tree) && CacheOrdered(cache) && codes != []
    requires Replay(render, st, cache, codes, add).Some?
    ensures add ==> AddDefined(render, st, cache, codes[0])
    ensures !add ==> RemoveDefined(render, st, cache, codes[0])
    ensures var next := if add then AddStep(render, st, cache, codes[0]) else RemoveStep(render, st, cache, codes[0]);
      Replay(render, st, cache, codes, add) == Replay(render, next.0, next.1, codes[1..], add)
  {
  }

  /** The edits that executeAddRemove performs through the matcher can all be carried out. */
  ghost predicate EditDefined(parameters: Parameters, arg: seq<CodeUnit>, add: bool)
    reads parameters, parameters.charMatcher, parameters.charMatcher.caches
    requires parameters.Valid()
  {
    var m := parameters.charMatcher;
    match Plan(arg, add)
    case Codes(codes) => Replay(m.caches.render, m.Snapshot(), m.caches.matchers, codes, add).Some?
    case _ => true
  }

  /** The matcher is the same object, with the same state and the same registered indexes. */
  twostate predicate MatcherUnchanged(parameters: Parameters)
    reads parameters, parameters.charMatcher, parameters.charMatcher.caches
  {
    && parameters.charMatcher == old(parameters.charMatcher)
    && parameters.charMatcher.Snapshot() == old(parameters.charMatcher.Snapshot())
    && parameters.charMatcher.caches.matchers == old(parameters.charMatcher.caches.matchers)
  }

  /** Nothing of the parameters or of their matcher changed. */
  twostate predicate Untouched(parameters: Parameters)
    reads parameters, parameters.charMatcher, parameters.charMatcher.caches
  {
    && parameters.res == old(parameters.res) && parameters.image == old(parameters.image)
    && MatcherUnchanged(parameters)
  }

  /**
   * The outcome of executeAddRemove: the codes of the plan added or removed
   * one by one on the same matcher, a fresh matcher on the empty set for
   * "remove all", or only a message; the resolution and image untouched.
   */
  twostate predicate EditApplied(parameters: Parameters, arg: seq<CodeUnit>, add: bool, new msg: Option<Message>)
    requires old(parameters.Valid())
    reads parameters, parameters.charMatcher, parameters.charMatcher.caches
  {
    var m := old(parameters.charMatcher);
    && parameters.res == old(parameters.res) && parameters.image == old(parameters.image)
    && match Plan(arg, add)
      case Codes(codes) =>
        && msg.None? && parameters.charMatcher == m
        && old(Replay(m.caches.render, m.Snapshot(), m.caches.matchers, codes, add))
           == Some((m.Snapshot(), m.caches.matchers))
      case ClearAll =>
        && msg.None? && fresh(parameters.charMatcher)
        && parameters.charMatcher.caches == m.caches && parameters.charMatcher.chars == []
        && (parameters.charMatcher.Snapshot(), m.caches.matchers) == old(Construct(m.caches.render, [], m.caches.matchers))
      case NoEdit =>
        && msg == Some(IncorrectFormat(add)) && Untouched(parameters)
  }

  /** The body of executeAddRemove's loops: addChar(c) when adding, removeChar(c) otherwise. */
  method EditOne(matcher: CharMatcher, c: CodeUnit, add: bool)
    requires matcher.Valid()
    requires add ==> AddDefined(matcher.caches.render, matcher.Snapshot(), matcher.caches.matchers, c)
    requires !add ==> RemoveDefined(matcher.caches.render, matcher.Snapshot(), matcher.caches.matchers, c)
    modifies matcher, matcher.caches
    ensures matcher.Valid()
    ensures (matcher.Snapshot(), matcher.caches.matchers)
      == if add then AddStep(matcher.caches.render, old(matcher.Snapshot()), old(matcher.caches.matchers), c)
         else RemoveStep(matcher.caches.render, old(matcher.Snapshot()), old(matcher.caches.matchers), c)
  {
    if add {
      matcher.AddChar(c);
      return;
    }
    matcher.RemoveChar(c);
  }

  /** The loops of executeAddRemove: addChar or removeChar on every code point lo..hi in turn. */
  method ApplyRange(matcher: CharMatcher, lo: int, hi: int, add: bool)
    requires 0 <= lo <= hi < 0x1_0000 && matcher.Valid()
    requires Replay(matcher.caches.render, matcher.Snapshot(), matcher.caches.matchers, Range(lo, hi), add).Some?
    modifies matcher, matcher.caches
    ensures matcher.Valid()
    ensures old(Replay(matcher.caches.render, matcher.Snapshot(), matcher.caches.matchers, Range(lo, hi), add))
      == Some((matcher.Snapshot(), matcher.caches.matchers))
  {
    ghost var render := matcher.caches.render;
    ghost var outcome := Replay(render, matcher.Snapshot(), matcher.caches.matchers, Range(lo, hi), add);
    for i := lo to hi + 1
      invariant matcher.Valid()
      invariant Replay(render, matcher.Snapshot(), matcher.caches.matchers, Range(i, hi), add) == outcome
    {
      RangeFirst(i, hi);
      ReplayFirst(render, matcher.Snapshot(), matcher.caches.matchers, Range(i, hi), add);
      EditOne(matcher, i as CodeUnit, add);
    }
    assert Range(hi + 1, hi) == [];
  }

  /** The "asciiArt" command can run: the image and resolution fit, and a nonempty set has a nonempty index. */
  ghost predicate ArtDefined(parameters: Parameters)
    reads parameters, parameters.charMatcher
  {
    !parameters.charMatcher.HasNoChars() ==> RunDefined(parameters)
  }

  /** The inputs a command needs so that the program does not fail on it (other than by the modelled exception). */
  ghost predicate CommandDefined(parameters: Parameters, cmd: seq<CodeUnit>, loaded: Option<Image>)
    reads parameters, parameters.charMatcher, parameters.charMatcher.caches
    requires parameters.Valid()
  {
    match Classify(cmd)
    case ResDown => parameters.image.height > 0
    case RunArt => ArtDefined(parameters)
    case Edit(arg, add) => EditDefined(parameters, arg, add)
    case ChangeImage(_) => loaded.Some? ==> WellFormed(loaded.value)
    case _ => true
  }

  class Shell {
    var asciiOutput: Output

    constructor()
      ensures asciiOutput == ConsoleOutput
    {
      asciiOutput := ConsoleOutput;
    }

    /**
     * executeAddRemove: one character, "space", a range "x-y" or "all" edit
     * the shared matcher one code point at a time; "remove all" installs a
     * matcher on the empty set; anything else only reports the format error.
     */
    method ExecuteAddRemove(arg: seq<CodeUnit>, parameters: Parameters, add: bool) returns (msg: Option<Message>)
      requires parameters.Valid() && EditDefined(parameters, arg, add)
      modifies parameters, parameters.charMatcher, parameters.charMatcher.caches
      ensures parameters.Valid()
      ensures EditApplied(parameters, arg, add, msg)
    {
      msg := None;
      var matcher := parameters.charMatcher;
      ghost var render := matcher.caches.render;
      if |arg| == 1 {
        ReplayFirst(render, matcher.Snapshot(), matcher.caches.matchers, [arg[0]], add);
        if add {
          matcher.AddChar(arg[0]);
          return;
        }
        matcher.RemoveChar(arg[0]);
      } else if arg == Units("space") {
        ReplayFirst(render, matcher.Snapshot(), matcher.caches.matchers, [SPACE], add);
        if add {
          matcher.AddChar(SPACE);
          return;
        }
        matcher.RemoveChar(SPACE);
      } else if |arg| == 3 && arg[1] == Unit('-') {
        var minimalLetter := Min(arg[0] as int, arg[2] as int);
        var maximalLetter := Max(arg[0] as int, arg[2] as int);
        ApplyRange(matcher, minimalLetter, maximalLetter, add);
      } else if arg == Units("all") {
        if add {
          ApplyRange(matcher, FIRST_PRINTABLE, LAST_PRINTABLE, true);
        } else {
          var empty := new CharMatcher(matcher.caches, []);
          parameters.SetCharMatcher(empty);
        }
      } else {
        msg := Some(IncorrectFormat(add));
      }
    }

    /**
     * runAlgorithm: on an empty character set only the NoChars message;
     * otherwise the grid of AsciiArtAlgorithm.run (which the program then
     * hands to the output). Nothing changes.
     */
    method RunAlgorithm(parameters: Parameters, brightness: Image -> real) returns (msg: Option<Message>, art: Option<array2<CodeUnit>>)
      requires ArtDefined(parameters)
      ensures parameters.charMatcher.HasNoChars() <==> art.None?
      ensures msg == (if parameters.charMatcher.HasNoChars() then Some(NoChars) else None)
      ensures art.Some? ==> fresh(art.value) && RunDefined(parameters) && IsArt(parameters, brightness, art.value)
    {
      if parameters.charMatcher.HasNoChars() {
        return Some(NoChars), None;
      }
      var asciiArtAlgorithm := new AsciiArtAlgorithm(parameters);
      var res := asciiArtAlgorithm.Run(brightness);
      return None, Some(res);
    }

    /**
     * executeRemainsCommands: an edit, a new image (None when the file cannot
     * be read), the exception of "image" alone, or the incorrect-command message.
     */
    method ExecuteRemainsCommands(cmd: seq<CodeUnit>, parameters: Parameters, loaded: Option<Image>) returns (msg: Option<Message>)
      requires parameters.Valid()
      requires RemainingCommand(cmd).Edit? ==> EditDefined(parameters, RemainingCommand(cmd).arg, RemainingCommand(cmd).add)
      requires RemainingCommand(cmd).ChangeImage? && loaded.Some? ==> WellFormed(loaded.value)
      modifies parameters, parameters.charMatcher, parameters.charMatcher.caches
      ensures parameters.Valid()
      ensures match RemainingCommand(cmd)
        case Edit(arg, add) => EditApplied(parameters, arg, add, msg)
        case ChangeImage(_) =>
          && msg.None? && parameters.image == (if loaded.Some? then loaded.value else old(parameters.image))
          && parameters.res == old(parameters.res) && parameters.charMatcher == old(parameters.charMatcher)
          && parameters.charMatcher.Snapshot() == old(parameters.charMatcher.Snapshot())
          && parameters.charMatcher.caches.matchers == old(parameters.charMatcher.caches.matchers)
        case ImageOutOfBounds => msg == Some(ImageIndexOutOfBounds) && Untouched(parameters)
        case _ => msg == Some(IncorrectCommandFormat) && Untouched(parameters)
    {
      if StartsWith(cmd, Units("add ")) {
        msg := ExecuteAddRemove(cmd[4..], parameters, true);
      } else if StartsWith(cmd, Units("remove ")) {
        msg := ExecuteAddRemove(cmd[7..], parameters, false);
      } else if StartsWith(cmd, Units("image")) {
        if |cmd| < 6 {
          return Some(ImageIndexOutOfBounds);
        }
        parameters.UpdateImage(loaded);
        msg := None;
      } else {
        msg := Some(IncorrectCommandFormat);
      }
    }

    /**
     * executeCommand: the exact commands (show the characters, change the
     * resolution, choose the output, draw), and everything else through
     * executeRemainsCommands.
     */
    method ExecuteCommand(cmd: seq<CodeUnit>, parameters: Parameters, brightness: Image -> real, loaded: Option<Image>)
      returns (msg: Option<Message>, art: Option<array2<CodeUnit>>)
      requires parameters.Valid() && CommandDefined(parameters, cmd, loaded)
      modifies this, parameters, parameters.charMatcher, parameters.charMatcher.caches
      ensures parameters.Valid()
      ensures asciiOutput == match Classify(cmd)
        case OutputConsole => ConsoleOutput
        case OutputHtml => HTML_OUTPUT
        case _ => old(asciiOutput)
      ensures !Classify(cmd).RunArt? ==> art.None?
      ensures match Classify(cmd)
        case ResUp =>
          && parameters.res == ResAfterUp(old(parameters.res), parameters.image.width)
          && parameters.image == old(parameters.image) && parameters.charMatcher == old(parameters.charMatcher)
          && MatcherUnchanged(parameters)
          && msg.None?
        case ResDown =>
          && parameters.image == old(parameters.image) && parameters.image.height > 0
          && parameters.res == ResAfterDown(old(parameters.res), parameters.image.width, parameters.image.height)
          && parameters.charMatcher == old(parameters.charMatcher)
          && MatcherUnchanged(parameters)
          && msg.None?
        case RunArt =>
          && Untouched(parameters)
          && (parameters.charMatcher.HasNoChars() <==> art.None?)
          && msg == (if parameters.charMatcher.HasNoChars() then Some(NoChars) else None)
          && (art.Some? ==> fresh(art.value) && RunDefined(parameters) && IsArt(parameters, brightness, art.value))
        case Edit(arg, add) => EditApplied(parameters, arg, add, msg)
        case ChangeImage(_) =>
          && msg.None? && parameters.image == (if loaded.Some? then loaded.value else old(parameters.image))
          && parameters.res == old(parameters.res) && parameters.charMatcher == old(parameters.charMatcher)
          && MatcherUnchanged(parameters)
        case ImageOutOfBounds => msg == Some(ImageIndexOutOfBounds) && Untouched(parameters)
        case IncorrectCommand => msg == Some(IncorrectCommandFormat) && Untouched(parameters)
        case _ => msg.None? && Untouched(parameters)
    {
      msg, art := None, None;
      if cmd == Units("chars") {
        // showChars only prints.
      } else if cmd == Units("res up") {
        parameters.ResUp();
      } else if cmd == Units("res down") {
        parameters.ResDown();
      } else if cmd == Units("output console") {
        asciiOutput := ConsoleOutput;
      } else if cmd == Units("output html") {
        asciiOutput := HTML_OUTPUT;
      } else if cmd == Units("asciiArt") {
        msg, art := RunAlgorithm(parameters, brightness);
      } else {
        msg := ExecuteRemainsCommands(cmd, parameters, loaded);
      }
    }
  }
}
