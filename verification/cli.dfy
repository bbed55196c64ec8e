/** The pure part of the console loop in `main`: an input line is cut into
    words, the first two (lower-cased) name the command and the remaining
    words, joined by single spaces, are its argument. */
module Cli {
  import opened Results
  import opened Text

  datatype Parsed = Parsed(command: string, params: Option<string>)

  /** Indexing the first word of a line that has none. */
  datatype Panic = NoFirstWord

  /** The commands `main` dispatches on. */
  datatype Command =
    | AddTask(params: Option<string>)
    | ListTasks
    | CompleteTask(params: Option<string>)
    | DeleteTask(params: Option<string>)
    | Quit
    | Invalid

  function CommandName(args: seq<string>): string
    requires |args| > 0
  {
    if |args| == 1 then ToLower(args[0]) else ToLower(args[0]) + " " + ToLower(args[1])
  }

  /** The split as the source writes it: with no words at all it indexes
      `args[0]` anyway and panics. `trim` on a word is left out, since a word
      has no whitespace to trim. The branches follow the source's three:
      more than two words, exactly two, and otherwise the first word alone,
      whose `args[0]` panics when there is no word. */
  function SplitCommandAsWritten(args: seq<string>): (r: Result<Parsed, Panic>)
    ensures r.Err? <==> args == []
    ensures r.Ok? ==> (r.value.params.Some? <==> |args| > 2)
  {
    if |args| > 2 then
      Ok(Parsed(CommandName(args), Some(Join(args[2..], " "))))
    else if |args| > 1 then
      Ok(Parsed(CommandName(args), None))
    else if args == [] then
      Err(NoFirstWord)
    else
      Ok(Parsed(ToLower(args[0]), None))
  }

  /** The split with the missing case filled in: a line without words gives
      an empty command name, which no command matches. */
  function SplitCommand(args: seq<string>): (p: Parsed)
    ensures p.params.Some? <==> |args| > 2
    ensures args == [] ==> p.command == ""
  {
    if args == [] then Parsed("", None)
    else if |args| > 2 then Parsed(CommandName(args), Some(Join(args[2..], " ")))
    else Parsed(CommandName(args), None)
  }

  function ParseAsWritten(input: string): Result<Parsed, Panic> {
    SplitCommandAsWritten(SplitWhitespace(input))
  }

  function Parse(input: string): Parsed {
    SplitCommand(SplitWhitespace(input))
  }

  /** The `match` on the command name in `main`. */
  function Classify(p: Parsed): Command {
    match p.command
    case "todo add" => AddTask(p.params)
    case "todo list" => ListTasks
    case "todo complete" => CompleteTask(p.params)
    case "todo delete" => DeleteTask(p.params)
    case "quit" => Quit
    case _ => Invalid
  }

  /** The source panics exactly on an input line that is empty or all
      whitespace, which is what reading at end of input also yields. */
  lemma AsWrittenPanicsOnBlankLine(input: string)
    ensures ParseAsWritten(input).Err? <==> IsBlank(input)
  {
  }

  /** The corrected split reports a blank line as an invalid command and
      agrees with the source on every other line. */
  lemma BlankLineIsInvalid(input: string)
    ensures IsBlank(input) ==> Classify(Parse(input)) == Invalid
    ensures !IsBlank(input) ==> ParseAsWritten(input) == Ok(Parse(input))
  {
  }

  lemma {:induction false} JoinHasNoLineFeed(ts: seq<string>, sep: string)
    requires forall i :: 0 <= i < |ts| ==> '\n' !in ts[i]
    requires '\n' !in sep
    ensures '\n' !in Join(ts, sep)
  {
    if |ts| > 1 {
      JoinHasNoLineFeed(ts[1..], sep);
      assert Join(ts, sep) == ts[0] + (sep + Join(ts[1..], sep));
    }
  }

  /** The command name splits back into the first one or two words,
      lower-cased. */
  lemma CommandNameWords(args: seq<string>)
    requires |args| > 0
    requires forall i :: 0 <= i < |args| ==> IsToken(args[i])
    ensures SplitWhitespace(CommandName(args))
      == if |args| == 1 then [ToLower(args[0])] else [ToLower(args[0]), ToLower(args[1])]
  {
    var first := ToLower(args[0]);
    ToLowerToken(args[0]);
    if |args| == 1 {
      SplitJoin([first]);
    } else {
      var second := ToLower(args[1]);
      ToLowerToken(args[1]);
      SplitJoin([first, second]);
      assert Join([first, second], " ") == first + (" " + second) == first + " " + second;
    }
  }

  /** Splitting the command name and the argument again gives back the words
      of the input, the first two lower-cased: nothing is lost or merged. */
  lemma ParseKeepsWords(input: string)
    requires !IsBlank(input)
    ensures var args := SplitWhitespace(input);
      && SplitWhitespace(Parse(input).command)
         == (if |args| == 1 then [ToLower(args[0])] else [ToLower(args[0]), ToLower(args[1])])
      && (Parse(input).params.Some? ==> SplitWhitespace(Parse(input).params.value) == args[2..])
  {
    var args := SplitWhitespace(input);
    CommandNameWords(args);
    if |args| > 2 {
      SplitJoin(args[2..]);
    }
  }

  /** A description entered with `todo add` never contains a line feed, so
      through the console only the delimiter can break the file format. */
  lemma AddedDescriptionHasNoLineFeed(input: string)
    requires Classify(Parse(input)).AddTask?
    requires Classify(Parse(input)).params.Some?
    ensures '\n' !in Classify(Parse(input)).params.value
  {
    var args := SplitWhitespace(input);
    var rest := args[2..];
    forall i | 0 <= i < |rest| ensures '\n' !in rest[i] {
      assert IsToken(rest[i]);
      assert IsWhitespace('\n');
    }
    JoinHasNoLineFeed(rest, " ");
  }
}
