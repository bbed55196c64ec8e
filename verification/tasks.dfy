/** A task and the one-line text form the backing file stores it in:
    `<description>::completed<true|false>`. */
module Tasks {
  import opened Results
  import opened Text

  datatype Task = Task(description: string, completed: bool)

  /** The literal that separates a description from its completion flag. */
  const Delimiter: string := "::completed"

  /** Why the backing file could not be read as a task list: a non-blank line
      has no delimiter (the source panics on it). */
  datatype LoadError = MissingDelimiter(line: string)

  /** A description that survives a save and a load unchanged. */
  ghost predicate WellFormed(description: string) {
    '\n' !in description && !Contains(description, Delimiter)
  }

  ghost predicate AllWellFormed(ts: seq<Task>) {
    forall i :: 0 <= i < |ts| ==> WellFormed(ts[i].description)
  }

  // ---------------------------------------------------------------------
  // Encoding
  // ---------------------------------------------------------------------

  /** Rust's `Display` for `bool`. */
  function FlagText(completed: bool): string {
    if completed then "true" else "false"
  }

  function EncodeLine(t: Task): string {
    t.description + Delimiter + FlagText(t.completed)
  }

  /** One line per task, in list order. */
  function EncodeLines(ts: seq<Task>): (ls: seq<string>)
    ensures |ls| == |ts|
    ensures forall i :: 0 <= i < |ts| ==> ls[i] == EncodeLine(ts[i])
  {
    if ts == [] then [] else [EncodeLine(ts[0])] + EncodeLines(ts[1..])
  }

  /** The whole file contents `save` writes for `ts`. */
  function Encode(ts: seq<Task>): string {
    JoinTerminated(EncodeLines(ts))
  }

  // ---------------------------------------------------------------------
  // Decoding
  // ---------------------------------------------------------------------

  /** The second piece `split("::completed")` yields, given the text after
      the first delimiter: everything up to the next delimiter, if any. */
  function FlagSegment(rest: string): string {
    match FindFirst(rest, Delimiter)
    case None => rest
    case Some(j) => rest[..j]
  }

  /** The text after the first delimiter reads as `true`: it is `true`, or
      `true` directly followed by another delimiter. */
  predicate ReadsTrue(rest: string) {
    rest == "true" || (|rest| >= 4 && rest[..4] == "true" && OccursAt(rest, Delimiter, 4))
  }

  lemma FlagSegmentTrue(rest: string)
    ensures FlagSegment(rest) == "true" <==> ReadsTrue(rest)
  {
    var f := FindFirst(rest, Delimiter);
    if |rest| >= 4 && rest[..4] == "true" && OccursAt(rest, Delimiter, 4) {
      assert forall k :: 0 <= k < 4 ==> rest[k] == "true"[k];
      forall j: nat | j < 4 ensures !OccursAt(rest, Delimiter, j) {
        assert rest[j] != ':';
        assert j + |Delimiter| <= |rest| ==> rest[j..j + |Delimiter|][0] == rest[j];
      }
      assert f == Some(4);
    }
    if rest == "true" {
      assert !OccursAt(rest, Delimiter, 0);
    }
  }

  /** One non-blank line read as a task: the text before the first
      delimiter is the description; the flag is set exactly when the piece
      after it is `true`. */
  function DecodeLine(line: string): (r: Result<Task, LoadError>)
    ensures r.Ok? <==> Contains(line, Delimiter)
    ensures r.Err? ==> r.error == MissingDelimiter(line)
    ensures r.Ok? ==> var d := r.value.description;
      && OccursAt(line, Delimiter, |d|)
      && d == line[..|d|]
      && !Contains(d, Delimiter)
      && (r.value.completed <==> ReadsTrue(line[|d| + |Delimiter|..]))
  {
    match FindFirst(line, Delimiter)
    case None => Err(MissingDelimiter(line))
    case Some(i) =>
      var d := line[..i];
      PrefixBeforeFirst(line, Delimiter, i);
      FlagSegmentTrue(line[i + |Delimiter|..]);
      Ok(Task(d, FlagSegment(line[i + |Delimiter|..]) == "true"))
  }

  /** A line `load` rejects: not blank, and without the delimiter. */
  ghost predicate IsBadLine(l: string) {
    !IsBlank(l) && !Contains(l, Delimiter)
  }

  ghost predicate NoBadLine(ls: seq<string>) {
    forall k :: 0 <= k < |ls| ==> !IsBadLine(ls[k])
  }

  ghost predicate NoLineFeed(ls: seq<string>) {
    forall k :: 0 <= k < |ls| ==> '\n' !in ls[k]
  }

  lemma NoBadLineCons(ls: seq<string>)
    requires ls != []
    ensures NoBadLine(ls) <==> !IsBadLine(ls[0]) && NoBadLine(ls[1..])
  {
  }

  lemma NoLineFeedCons(ls: seq<string>)
    requires ls != []
    ensures NoLineFeed(ls) <==> '\n' !in ls[0] && NoLineFeed(ls[1..])
  {
  }

  ghost predicate NoDelimiterIn(ts: seq<Task>) {
    forall i :: 0 <= i < |ts| ==> !Contains(ts[i].description, Delimiter)
  }

  /** The lines `load` reads a task from: the non-blank ones, in file
      order. */
  ghost function NonBlank(ls: seq<string>): seq<string> {
    if ls == [] then []
    else if IsBlank(ls[0]) then NonBlank(ls[1..])
    else [ls[0]] + NonBlank(ls[1..])
  }

  /** Where the first line `load` rejects sits. */
  ghost function FirstBadLine(ls: seq<string>): (k: nat)
    requires !NoBadLine(ls)
    ensures k < |ls| && IsBadLine(ls[k]) && NoBadLine(ls[..k])
  {
    if IsBadLine(ls[0]) then 0
    else
      var k := FirstBadLine(ls[1..]);
      k + 1
  }

  /** `load`'s loop over the lines: blank lines are skipped, every other
      line becomes one task, in order; the first line without a delimiter
      stops the load. */
  function DecodeLines(ls: seq<string>): (r: Result<seq<Task>, LoadError>)
    ensures r.Ok? <==> NoBadLine(ls)
    ensures r.Err? ==> r.error == MissingDelimiter(ls[FirstBadLine(ls)])
    ensures r.Ok? ==> |r.value| == |NonBlank(ls)| <= |ls|
    ensures r.Ok? ==> forall k :: 0 <= k < |r.value| ==> DecodeLine(NonBlank(ls)[k]) == Ok(r.value[k])
    ensures r.Ok? ==> NoDelimiterIn(r.value)
    ensures r.Ok? && NoLineFeed(ls) ==> AllWellFormed(r.value)
  {
    if ls == [] then
      Ok([])
    else
      NoBadLineCons(ls);
      NoLineFeedCons(ls);
      if IsBlank(ls[0]) then
        DecodeLines(ls[1..])
      else
        match DecodeLine(ls[0])
        case Err(e) => Err(e)
        case Ok(t) =>
          NoCharInPrefix(ls[0], |t.description|, '\n');
          match DecodeLines(ls[1..])
          case Err(e) => Err(e)
          case Ok(ts) => Ok([t] + ts)
  }

  /** The task list read from the whole file contents. */
  function Decode(s: string): (r: Result<seq<Task>, LoadError>)
    ensures r.Ok? ==> AllWellFormed(r.value)
  {
    DecodeLines(Lines(s))
  }

  // ---------------------------------------------------------------------
  // Properties of the encoding
  // ---------------------------------------------------------------------

  /** The delimiter cannot overlap itself: two occurrences of it are at
      least its length apart. */
  lemma DelimiterNoOverlap(s: string, i: nat, j: nat)
    requires OccursAt(s, Delimiter, i) && OccursAt(s, Delimiter, j) && i < j
    ensures i + |Delimiter| <= j
  {
    assert forall p :: i <= p < i + |Delimiter| ==> s[p] == Delimiter[p - i];
    assert forall p :: j <= p < j + |Delimiter| ==> s[p] == Delimiter[p - j];
    assert s[j] == ':' && s[j + 1] == ':';
    DelimiterColons();
  }

  /** Only the first two characters of the delimiter are colons. */
  lemma DelimiterColons()
    ensures forall k :: 1 < k < |Delimiter| ==> Delimiter[k] != ':'
  {
  }

  /** When a description does not contain the delimiter, the first
      delimiter of its encoded line is the one that follows it. */
  lemma FirstDelimiterAfterDescription(d: string, rest: string)
    requires !Contains(d, Delimiter)
    ensures FindFirst(d + Delimiter + rest, Delimiter) == Some(|d|)
  {
    var s := d + Delimiter + rest;
    assert s[|d|..|d| + |Delimiter|] == Delimiter;
    assert OccursAt(s, Delimiter, |d|);
    forall j: nat | j < |d| ensures !OccursAt(s, Delimiter, j) {
      if OccursAt(s, Delimiter, j) {
        DelimiterNoOverlap(s, j, |d|);
        assert d[j..j + |Delimiter|] == s[j..j + |Delimiter|];
        assert OccursAt(d, Delimiter, j);
      }
    }
  }

  lemma DecodeCleanLine(t: Task)
    requires !Contains(t.description, Delimiter)
    ensures DecodeLine(EncodeLine(t)) == Ok(t)
  {
    var d := t.description;
    var line := EncodeLine(t);
    FirstDelimiterAfterDescription(d, FlagText(t.completed));
    assert line[..|d|] == d;
    assert line[|d| + |Delimiter|..] == FlagText(t.completed);
    assert FindFirst(FlagText(t.completed), Delimiter) == None;
  }

  lemma DecodeUncleanLine(t: Task)
    requires Contains(t.description, Delimiter)
    ensures DecodeLine(EncodeLine(t)) != Ok(t)
  {
  }

  /** A single line decodes to the task it encodes exactly when the
      description does not contain the delimiter. */
  lemma DecodeEncodeLine(t: Task)
    ensures DecodeLine(EncodeLine(t)) == Ok(t) <==> !Contains(t.description, Delimiter)
  {
    if Contains(t.description, Delimiter) {
      DecodeUncleanLine(t);
    } else {
      DecodeCleanLine(t);
    }
  }

  /** An encoded line is never blank and never ends in a carriage return;
      it is a plain line when its description has no line feed. */
  lemma EncodeLineIsPlain(t: Task)
    ensures !IsBlank(EncodeLine(t))
    ensures !EndsWithCR(EncodeLine(t))
    ensures '\n' !in t.description ==> IsPlainLine(EncodeLine(t))
  {
    assert EncodeLine(t)[|t.description|] == ':';
  }

  lemma {:induction false} DecodeEncodedLines(ts: seq<Task>)
    requires forall i :: 0 <= i < |ts| ==> !Contains(ts[i].description, Delimiter)
    requires forall i :: 0 <= i < |ts| ==> '\n' !in ts[i].description
    ensures DecodeLines(EncodeLines(ts)) == Ok(ts)
  {
    if ts != [] {
      var ls := EncodeLines(ts);
      EncodeLineIsPlain(ts[0]);
      DecodeEncodeLine(ts[0]);
      assert ls[1..] == EncodeLines(ts[1..]);
      DecodeEncodedLines(ts[1..]);
      assert ts == [ts[0]] + ts[1..];
    }
  }

  /** Round trip: reading back what `save` wrote gives the same tasks, in the
      same order, exactly when no description contains a line feed or the
      delimiter. */
  lemma RoundTrip(ts: seq<Task>)
    ensures Decode(Encode(ts)) == Ok(ts) <==> AllWellFormed(ts)
  {
    if AllWellFormed(ts) {
      var ls := EncodeLines(ts);
      forall i | 0 <= i < |ls| ensures IsPlainLine(ls[i]) {
        EncodeLineIsPlain(ts[i]);
      }
      LinesOfJoined(ls);
      DecodeEncodedLines(ts);
    }
  }

  /** Saving what was loaded and loading again gives the same tasks. */
  lemma ReloadIsStable(s: string)
    requires Decode(s).Ok?
    ensures Decode(Encode(Decode(s).value)) == Decode(s)
  {
    RoundTrip(Decode(s).value);
  }

  /** A blank line anywhere in the file changes nothing. */
  lemma {:induction false} BlankLineIgnored(before: seq<string>, blank: string, after: seq<string>)
    requires IsBlank(blank)
    ensures DecodeLines(before + [blank] + after) == DecodeLines(before + after)
  {
    if before == [] {
      var ls := before + [blank] + after;
      assert ls[0] == blank && ls[1..] == after;
      assert before + after == after;
    } else {
      assert (before + [blank] + after)[1..] == before[1..] + [blank] + after;
      assert (before + after)[1..] == before[1..] + after;
      BlankLineIgnored(before[1..], blank, after);
    }
  }
}
