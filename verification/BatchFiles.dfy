/**
 The two ends of a batch: reading the file of requests, one JSON text per line, and writing
 the results of all requests to one file for the completed ones and one for the rest.
 What JSON and URL text means is a parameter.
 */
module BatchFiles {
  import opened Text
  import opened Wrappers

  const NEWLINE := '\n'
  const MAX_LINE_BYTES := 0x100_0000
  const MAX_ID_BYTES := 128
  const DEFAULT_MAX_LINES := 50_000

  // ------------------------------------------------------------------------ lines

  /** The lines of a text; what follows the last line break is a line if there is anything. */
  function Lines(text: string): seq<string> {
    var parts := Split(text, NEWLINE);
    if parts[|parts| - 1] == "" then parts[..|parts| - 1] else parts
  }

  // --------------------------------------------------------------------- one line

  /** What a line says; the body, when it is a JSON object, with its canonical form. */
  datatype Object = Object(model: string, streams: bool, canonical: Option<string>)

  datatype Request = Request(customId: string, method_: string, url: string, body: Option<Object>)

  datatype Decoded = Malformed | Decoded(fields: set<string>, request: Option<Request>)

  /** What text means; `size` is its length in bytes. */
  datatype Formats = Formats(
    decode: string -> Decoded, upper: string -> string, endpointOf: string -> string, size: string -> nat)

  datatype Item = Item(lineNumber: nat, customId: string, url: string, body: string)

  datatype Reason =
    | InvalidJson | UnsupportedField | InvalidId | DuplicateId | NotPost | WrongUrl | NoBody | NoModel | Streaming
    | BodyInvalid | TooManyRequests | LineTooLong | ReadFailed | NoRequests

  const FIELDS := {"custom_id", "method", "url", "body"}

  /** The first thing that is wrong with a line, if the given ids are taken. */
  function Problem(f: Formats, endpoint: string, line: string, taken: set<string>): Option<Reason> {
    match f.decode(line)
    case Malformed => Some(InvalidJson)
    case Decoded(fields, request) =>
      if !(fields <= FIELDS) then Some(UnsupportedField)
      else if request.None? then Some(InvalidJson)
      else
        var id := TrimSpace(request.value.customId);
        if id == "" || f.size(id) > MAX_ID_BYTES then Some(InvalidId)
        else if id in taken then Some(DuplicateId)
        else if f.upper(TrimSpace(request.value.method_)) != "POST" then Some(NotPost)
        else if f.endpointOf(request.value.url) != endpoint then Some(WrongUrl)
        else if request.value.body.None? then Some(NoBody)
        else
          var body := request.value.body.value;
          if TrimSpace(body.model) == "" then Some(NoModel)
          else if body.streams then Some(Streaming)
          else if body.canonical.None? then Some(BodyInvalid)
          else None
  }

  /** A request that is fine by itself. */
  predicate Fine(f: Formats, endpoint: string, line: string) {
    Problem(f, endpoint, line, {}).None?
  }

  function CustomId(f: Formats, line: string): string {
    match f.decode(line)
    case Decoded(_, Some(request)) => TrimSpace(request.customId)
    case _ => ""
  }

  function ItemOf(f: Formats, endpoint: string, line: string, number: nat): Item
    requires Fine(f, endpoint, line)
  {
    Item(number, CustomId(f, line), endpoint, f.decode(line).request.value.body.value.canonical.value)
  }

  lemma ProblemIs(f: Formats, endpoint: string, line: string, taken: set<string>)
    ensures Problem(f, endpoint, line, taken).None? <==> Fine(f, endpoint, line) && CustomId(f, line) !in taken
    ensures Fine(f, endpoint, line) ==> CustomId(f, line) != "" && f.size(CustomId(f, line)) <= MAX_ID_BYTES
  {
  }

  /** What a request has to be, apart from its id being new. */
  lemma FineExactly(f: Formats, endpoint: string, line: string)
    ensures Fine(f, endpoint, line) <==>
      && f.decode(line).Decoded? && f.decode(line).request.Some?
      && f.decode(line).fields <= {"custom_id", "method", "url", "body"}
      && var r := f.decode(line).request.value;
         && TrimSpace(r.customId) != "" && f.size(TrimSpace(r.customId)) <= 128
         && f.upper(TrimSpace(r.method_)) == "POST" && f.endpointOf(r.url) == endpoint
         && r.body.Some? && TrimSpace(r.body.value.model) != "" && !r.body.value.streams && r.body.value.canonical.Some?
  {
  }

  /** What its item carries. */
  lemma ItemExactly(f: Formats, endpoint: string, line: string, number: nat)
    requires Fine(f, endpoint, line)
    ensures var item, r := ItemOf(f, endpoint, line, number), f.decode(line).request.value;
      && item.lineNumber == number && item.customId == TrimSpace(r.customId) && item.url == endpoint
      && Some(item.body) == r.body.value.canonical
  {
  }

  /** The reasons for a refusal, in the order in which they are looked for. */
  lemma ReasonsInOrder(f: Formats, endpoint: string, line: string, taken: set<string>)
    ensures var d, why := f.decode(line), Problem(f, endpoint, line, taken);
      && (d.Malformed? ==> why == Some(InvalidJson))
      && (d.Decoded? && (exists field :: field in d.fields && field !in {"custom_id", "method", "url", "body"}) ==>
            why == Some(UnsupportedField))
      && (d.Decoded? && d.fields <= {"custom_id", "method", "url", "body"} ==>
            if d.request.None? then why == Some(InvalidJson)
            else
              var r, id := d.request.value, TrimSpace(d.request.value.customId);
              if id == "" || f.size(id) > 128 then why == Some(InvalidId)
              else if id in taken then why == Some(DuplicateId)
              else if f.upper(TrimSpace(r.method_)) != "POST" then why == Some(NotPost)
              else if f.endpointOf(r.url) != endpoint then why == Some(WrongUrl)
              else if r.body.None? then why == Some(NoBody)
              else if TrimSpace(r.body.value.model) == "" then why == Some(NoModel)
              else if r.body.value.streams then why == Some(Streaming)
              else if r.body.value.canonical.None? then why == Some(BodyInvalid)
              else why == None)
  {
  }

  /** How many lines come before the first one that is too long. */
  function Readable(f: Formats, lines: seq<string>): (n: nat)
    ensures n <= |lines|
    ensures forall i :: 0 <= i < n ==> f.size(lines[i]) < MAX_LINE_BYTES
    ensures n < |lines| ==> f.size(lines[n]) >= MAX_LINE_BYTES
  {
    if lines == [] || f.size(lines[0]) >= MAX_LINE_BYTES then 0 else 1 + Readable(f, lines[1..])
  }

  // -------------------------------------------------------------------- all lines

  datatype Outcome = Items(items: seq<Item>) | Error(reason: Reason, line: nat)

  function Ids(items: seq<Item>): set<string> {
    set item | item in items :: item.customId
  }

  /** Reading one more line, at position n. */
  function Extend(f: Formats, endpoint: string, items: seq<Item>, raw: string, n: nat, limit: nat): Outcome {
    var line := TrimSpace(raw);
    if line == "" then Items(items)
    else if |items| >= limit then Error(TooManyRequests, n + 1)
    else match Problem(f, endpoint, line, Ids(items))
      case Some(reason) => Error(reason, n + 1)
      case None => ProblemIs(f, endpoint, line, Ids(items)); Items(items + [ItemOf(f, endpoint, line, n + 1)])
  }

  function ParseLines(f: Formats, endpoint: string, lines: seq<string>, limit: nat): Outcome {
    if lines == [] then Items([])
    else
      var n := |lines| - 1;
      match ParseLines(f, endpoint, lines[..n], limit)
      case Error(reason, line) => Error(reason, line)
      case Items(items) => Extend(f, endpoint, items, lines[n], n, limit)
  }

  lemma ParseNothing(f: Formats, endpoint: string, limit: nat)
    ensures ParseLines(f, endpoint, [], limit) == Items([])
  {
  }

  lemma ParseNext(f: Formats, endpoint: string, lines: seq<string>, limit: nat, i: nat, items: seq<Item>)
    requires i < |lines| && ParseLines(f, endpoint, lines[..i], limit) == Items(items)
    ensures ParseLines(f, endpoint, lines[..i + 1], limit) == Extend(f, endpoint, items, lines[i], i, limit)
  {
    assert lines[..i + 1][..i] == lines[..i];
  }

  /** A stream of text that ends, or breaks off. */
  datatype Source = Source(text: string, fails: bool)

  function Limit(maxLines: int): nat {
    if maxLines <= 0 then DEFAULT_MAX_LINES else maxLines
  }

  function Parse(f: Formats, endpoint: string, source: Source, maxLines: int): Outcome {
    var lines := Lines(source.text);
    var n := Readable(f, lines);
    match ParseLines(f, endpoint, lines[..n], Limit(maxLines))
    case Error(reason, line) => Error(reason, line)
    case Items(items) =>
      if n < |lines| then Error(LineTooLong, 0)
      else if source.fails then Error(ReadFailed, 0)
      else if items == [] then Error(NoRequests, 0)
      else Items(items)
  }

  /** Reads the requests line by line and stops at the first that is refused. */
  method ParseBatch(f: Formats, endpoint: string, source: Source, maxLines: int) returns (r: Outcome)
    ensures r == Parse(f, endpoint, source, maxLines)
  {
    hide Problem, TrimSpace, CustomId, Fine, Lines, Split, ParseLines, Readable;
    var limit := if maxLines <= 0 then DEFAULT_MAX_LINES else maxLines;
    var lines := Lines(source.text);
    var items: seq<Item> := [];
    var customIds: set<string> := {};
    var i := 0;
    ghost var n := Readable(f, lines);
    assert ParseLines(f, endpoint, [], limit) == Items([]) by { ParseNothing(f, endpoint, limit); }
    while i < |lines| && f.size(lines[i]) < MAX_LINE_BYTES
      invariant i <= n
      invariant ParseLines(f, endpoint, lines[..i], limit) == Items(items)
      invariant customIds == Ids(items)
    {
      ParseNext(f, endpoint, lines, limit, i, items);
      ParseStops(f, endpoint, lines, limit, i + 1, n);
      var line := TrimSpace(lines[i]);
      i := i + 1;
      if line == "" {
        continue;
      }
      if |items| >= limit {
        return Error(TooManyRequests, i);
      }
      var problem := Problem(f, endpoint, line, customIds);
      if problem.Some? {
        return Error(problem.value, i);
      }
      ProblemIs(f, endpoint, line, customIds);
      customIds := customIds + {CustomId(f, line)};
      items := items + [ItemOf(f, endpoint, line, i)];
    }
    if i < |lines| {
      return Error(LineTooLong, 0);
    }
    if source.fails {
      return Error(ReadFailed, 0);
    }
    r := if items == [] then Error(NoRequests, 0) else Items(items);
  }

  /** The first error stays the outcome, and is that of the first line that is refused. */
  lemma {:induction false} ParseStops(f: Formats, endpoint: string, lines: seq<string>, limit: nat, k: nat, n: nat)
    requires k <= n <= |lines|
    ensures ParseLines(f, endpoint, lines[..k], limit).Error? ==>
      ParseLines(f, endpoint, lines[..n], limit) == ParseLines(f, endpoint, lines[..k], limit)
    decreases n - k
  {
    if k < n {
      ParseStops(f, endpoint, lines, limit, k, n - 1);
      assert lines[..n][..n - 1] == lines[..n - 1];
    }
  }

  // ------------------------------------------------------------ what is accepted

  predicate Blank(line: string) {
    TrimSpace(line) == ""
  }

  /** The positions of the lines that are not blank. */
  function Kept(lines: seq<string>): seq<nat> {
    if lines == [] then []
    else
      var n := |lines| - 1;
      if Blank(lines[n]) then Kept(lines[..n]) else Kept(lines[..n]) + [n]
  }

  lemma {:induction false} KeptIs(lines: seq<string>)
    ensures forall i :: i in Kept(lines) <==> 0 <= i < |lines| && !Blank(lines[i])
    ensures forall a, b :: 0 <= a < b < |Kept(lines)| ==> Kept(lines)[a] < Kept(lines)[b]
  {
    hide Blank;
    if lines != [] {
      var front := lines[..|lines| - 1];
      KeptIs(front);
      assert forall a :: 0 <= a < |Kept(front)| ==> Kept(front)[a] in Kept(front);
      forall i ensures i in Kept(lines) <==> 0 <= i < |lines| && !Blank(lines[i]) {
        assert i in Kept(lines) <==> i in Kept(front) || (i == |lines| - 1 && !Blank(lines[i]));
        assert 0 <= i < |front| ==> front[i] == lines[i];
      }
    }
  }

  ghost predicate AllFine(f: Formats, endpoint: string, lines: seq<string>) {
    forall i :: 0 <= i < |lines| && !Blank(lines[i]) ==> Fine(f, endpoint, TrimSpace(lines[i]))
  }

  ghost predicate NoDuplicates(f: Formats, lines: seq<string>) {
    forall i, j :: 0 <= i < j < |lines| && !Blank(lines[i]) && !Blank(lines[j]) ==>
      CustomId(f, TrimSpace(lines[i])) != CustomId(f, TrimSpace(lines[j]))
  }

  ghost predicate Acceptable(f: Formats, endpoint: string, lines: seq<string>, limit: nat) {
    AllFine(f, endpoint, lines) && NoDuplicates(f, lines) && |Kept(lines)| <= limit
  }

  /** One item for each line that is not blank, in order and with its number. */
  ghost predicate Corresponds(f: Formats, endpoint: string, lines: seq<string>, items: seq<Item>) {
    && AllFine(f, endpoint, lines)
    && |items| == |Kept(lines)|
    && forall k :: 0 <= k < |items| ==>
         var i := Kept(lines)[k];
         i < |lines| && !Blank(lines[i]) && items[k] == ItemOf(f, endpoint, TrimSpace(lines[i]), i + 1)
  }

  /** The ids of the items are those of the lines. */
  lemma IdsOfLines(f: Formats, endpoint: string, lines: seq<string>, items: seq<Item>, id: string)
    requires Corresponds(f, endpoint, lines, items)
    ensures id in Ids(items) <==>
      exists i :: 0 <= i < |lines| && !Blank(lines[i]) && CustomId(f, TrimSpace(lines[i])) == id
  {
    KeptIs(lines);
    if i :| 0 <= i < |lines| && !Blank(lines[i]) && CustomId(f, TrimSpace(lines[i])) == id {
      assert i in Kept(lines);
      var k :| 0 <= k < |Kept(lines)| && Kept(lines)[k] == i;
      assert items[k] in items && items[k].customId == id;
    }
    if id in Ids(items) {
      var item :| item in items && item.customId == id;
      var k :| 0 <= k < |items| && items[k] == item;
      assert CustomId(f, TrimSpace(lines[Kept(lines)[k]])) == id;
    }
  }

  /** One more acceptable line gives one more item. */
  lemma CorrespondsGrows(f: Formats, endpoint: string, lines: seq<string>, items: seq<Item>)
    requires lines != [] && Corresponds(f, endpoint, lines[..|lines| - 1], items)
    ensures var n := |lines| - 1;
      if Blank(lines[n]) then Corresponds(f, endpoint, lines, items)
      else
        var line := TrimSpace(lines[n]);
        Fine(f, endpoint, line) ==> Corresponds(f, endpoint, lines, items + [ItemOf(f, endpoint, line, n + 1)])
  {
    hide Blank, Fine, TrimSpace, ItemOf;
    KeptIs(lines[..|lines| - 1]);
  }

  lemma ExtendExactly(f: Formats, endpoint: string, lines: seq<string>, items: seq<Item>, limit: nat)
    requires lines != [] && Corresponds(f, endpoint, lines[..|lines| - 1], items)
    requires Acceptable(f, endpoint, lines[..|lines| - 1], limit)
    ensures var r := Extend(f, endpoint, items, lines[|lines| - 1], |lines| - 1, limit);
      && (r.Items? <==> Acceptable(f, endpoint, lines, limit))
      && (r.Items? ==> Corresponds(f, endpoint, lines, r.items))
  {
    hide Problem, TrimSpace, ItemOf, CustomId, Fine, Acceptable, Kept;
    var n := |lines| - 1;
    var front, line := lines[..n], TrimSpace(lines[n]);
    AcceptableFront(f, endpoint, lines, limit);
    CorrespondsGrows(f, endpoint, lines, items);
    if !Blank(lines[n]) {
      ProblemIs(f, endpoint, line, Ids(items));
      IdsOfLines(f, endpoint, front, items, CustomId(f, line));
      LastLine(f, endpoint, lines, limit);
    }
  }

  /** The lines are parsed exactly when they are acceptable, and then to the items they stand for. */
  lemma {:induction false} ParseLinesExactly(f: Formats, endpoint: string, lines: seq<string>, limit: nat)
    ensures var r := ParseLines(f, endpoint, lines, limit);
      && (r.Items? <==> Acceptable(f, endpoint, lines, limit))
      && (r.Items? ==> Corresponds(f, endpoint, lines, r.items))
  {
    if lines != [] {
      var front := lines[..|lines| - 1];
      hide Acceptable, Corresponds, Extend;
      ParseLinesExactly(f, endpoint, front, limit);
      AcceptableFront(f, endpoint, lines, limit);
      var before := ParseLines(f, endpoint, front, limit);
      if before.Items? {
        ExtendExactly(f, endpoint, lines, before.items, limit);
      }
    }
  }

  lemma AcceptableFront(f: Formats, endpoint: string, lines: seq<string>, limit: nat)
    requires lines != []
    ensures Acceptable(f, endpoint, lines, limit) ==> Acceptable(f, endpoint, lines[..|lines| - 1], limit)
    ensures Blank(lines[|lines| - 1]) && Acceptable(f, endpoint, lines[..|lines| - 1], limit) ==>
      Acceptable(f, endpoint, lines, limit)
  {
    hide Blank, Fine, CustomId, TrimSpace;
  }

  lemma LastLine(f: Formats, endpoint: string, lines: seq<string>, limit: nat)
    requires lines != [] && !Blank(lines[|lines| - 1]) && Acceptable(f, endpoint, lines[..|lines| - 1], limit)
    ensures var n := |lines| - 1;
      var line := TrimSpace(lines[n]);
      Acceptable(f, endpoint, lines, limit) <==>
        && Fine(f, endpoint, line) && |Kept(lines[..n])| < limit
        && !exists i :: 0 <= i < |lines[..n]| && !Blank(lines[..n][i])
                        && CustomId(f, TrimSpace(lines[..n][i])) == CustomId(f, line)
  {
    hide Blank, Fine, CustomId, TrimSpace;
  }

  /**
   A file is accepted exactly when it can be read, no line is too long, it has requests and
   not too many, and these are fine and have different ids; it is then read to its items.
   */
  lemma ParseExactly(f: Formats, endpoint: string, source: Source, maxLines: int)
    ensures var lines, r := Lines(source.text), Parse(f, endpoint, source, maxLines);
      var limit := if maxLines <= 0 then 50000 else maxLines;
      && (r.Items? <==>
            && !source.fails && (forall i :: 0 <= i < |lines| ==> f.size(lines[i]) < 16777216) && Kept(lines) != []
            && Acceptable(f, endpoint, lines, limit))
      && (r.Items? ==> Corresponds(f, endpoint, lines, r.items) && 1 <= |r.items| <= limit)
    ensures var lines, r := Lines(source.text), Parse(f, endpoint, source, maxLines);
      var n := Readable(f, lines);
      Acceptable(f, endpoint, lines[..n], if maxLines <= 0 then 50000 else maxLines) ==>
        && (n < |lines| ==> r == Error(LineTooLong, 0))
        && (n == |lines| && source.fails ==> r == Error(ReadFailed, 0))
        && (n == |lines| && !source.fails && Kept(lines) == [] ==> r == Error(NoRequests, 0))
  {
    hide Acceptable, Problem, ParseLines, Corresponds, Lines, Kept, Readable;
    var lines := Lines(source.text);
    var n := Readable(f, lines);
    var outcome := ParseLines(f, endpoint, lines[..n], Limit(maxLines));
    ParseLinesExactly(f, endpoint, lines[..n], Limit(maxLines));
    if outcome.Items? {
      CorrespondsCounts(f, endpoint, lines[..n], outcome.items, Limit(maxLines));
    }
    if n == |lines| {
      assert lines[..n] == lines;
    } else {
      assert f.size(lines[n]) >= 16777216;
    }
  }

  lemma CorrespondsCounts(f: Formats, endpoint: string, lines: seq<string>, items: seq<Item>, limit: nat)
    requires Corresponds(f, endpoint, lines, items) && Acceptable(f, endpoint, lines, limit)
    ensures |items| == |Kept(lines)| <= limit
  {
  }

  lemma NotTooMany(f: Formats, endpoint: string, line: string, taken: set<string>)
    ensures Problem(f, endpoint, line, taken) != Some(TooManyRequests)
  {
  }

  /** A refusal names the first line with which the lines so far are no longer acceptable. */
  lemma {:induction false} ErrorLine(f: Formats, endpoint: string, lines: seq<string>, limit: nat)
    ensures match ParseLines(f, endpoint, lines, limit)
      case Items(_) => true
      case Error(reason, n) =>
        && 1 <= n <= |lines| && Acceptable(f, endpoint, lines[..n - 1], limit)
        && !Acceptable(f, endpoint, lines[..n], limit)
        && (reason == TooManyRequests <==> |Kept(lines[..n - 1])| >= limit)
  {
    hide Acceptable, Problem, Kept, Fine, CustomId, ItemOf;
    if lines != [] {
      var front := lines[..|lines| - 1];
      ErrorLine(f, endpoint, front, limit);
      forall line, taken ensures Problem(f, endpoint, line, taken) != Some(TooManyRequests) {
        NotTooMany(f, endpoint, line, taken);
      }
      ParseLinesExactly(f, endpoint, front, limit);
      ParseLinesExactly(f, endpoint, lines, limit);
      assert lines[..|lines|] == lines;
      assert forall k :: 0 <= k <= |front| ==> front[..k] == lines[..k];
    }
  }

  /** Accepted items have different ids, each within bounds, and increasing line numbers. */
  lemma ItemsAreDistinct(f: Formats, endpoint: string, source: Source, maxLines: int)
    requires Parse(f, endpoint, source, maxLines).Items?
    ensures var items := Parse(f, endpoint, source, maxLines).items;
      && (forall k :: 0 <= k < |items| ==>
            items[k].customId != "" && f.size(items[k].customId) <= 128 && items[k].url == endpoint)
      && (forall j, k :: 0 <= j < k < |items| ==>
            items[j].customId != items[k].customId && items[j].lineNumber < items[k].lineNumber)
  {
    hide Blank, TrimSpace, Problem;
    var lines := Lines(source.text);
    var items := Parse(f, endpoint, source, maxLines).items;
    ParseExactly(f, endpoint, source, maxLines);
    KeptIs(lines);
    forall k | 0 <= k < |items| ensures items[k].customId != "" && f.size(items[k].customId) <= MAX_ID_BYTES {
      ProblemIs(f, endpoint, TrimSpace(lines[Kept(lines)[k]]), {});
    }
  }

  // ------------------------------------------------------------------ the results

  datatype Status = Completed | Failed | Cancelled | Unfinished

  datatype Done = Done(customId: string, status: Status, response: string, error: string)

  datatype WriteError = NotTerminal(customId: string) | NoResult(customId: string)

  /** The line of a request; that of a cancelled one is made up here. */
  function LineOf(item: Done, cancelLine: string -> string): string {
    match item.status
    case Completed => item.response
    case Failed => item.error
    case Cancelled => cancelLine(item.customId)
    case Unfinished => ""
  }

  predicate Ready(item: Done, cancelLine: string -> string) {
    !item.status.Unfinished? && LineOf(item, cancelLine) != ""
  }

  /** The lines of the completed requests, or of the others, in order. */
  function Selected(items: seq<Done>, completed: bool, cancelLine: string -> string): seq<string> {
    if items == [] then []
    else
      var n := |items| - 1;
      var rest := Selected(items[..n], completed, cancelLine);
      if items[n].status.Completed? == completed then rest + [LineOf(items[n], cancelLine)] else rest
  }

  /** Lines, each with a line break after it. */
  function Written(lines: seq<string>): string {
    if lines == [] then "" else lines[0] + [NEWLINE] + Written(lines[1..])
  }

  /** How many requests come before the first without a result. */
  function ReadyCount(items: seq<Done>, cancelLine: string -> string): (n: nat)
    ensures n <= |items| && (forall i :: 0 <= i < n ==> Ready(items[i], cancelLine))
    ensures n < |items| ==> !Ready(items[n], cancelLine)
  {
    if items == [] || !Ready(items[0], cancelLine) then 0 else 1 + ReadyCount(items[1..], cancelLine)
  }

  /** Writes up to the first request without a result, which is an error. */
  method EncodeResults(items: seq<Done>, cancelLine: string -> string)
    returns (output: string, failures: string, error: Option<WriteError>)
    ensures var n := ReadyCount(items, cancelLine);
      && output == Written(Selected(items[..n], true, cancelLine))
      && failures == Written(Selected(items[..n], false, cancelLine))
      && error == if n == |items| then None
                  else if items[n].status.Unfinished? then Some(NotTerminal(items[n].customId))
                  else Some(NoResult(items[n].customId))
  {
    hide ReadyCount, Selected, Written;
    output, failures, error := "", "", None;
    NothingSelected(true, cancelLine);
    NothingSelected(false, cancelLine);
    for i := 0 to |items|
      invariant i <= ReadyCount(items, cancelLine) && error.None?
      invariant output == Written(Selected(items[..i], true, cancelLine))
      invariant failures == Written(Selected(items[..i], false, cancelLine))
    {
      var item := items[i];
      if item.status.Unfinished? {
        error := Some(NotTerminal(item.customId));
        return;
      }
      var line := match item.status
        case Completed => item.response
        case Failed => item.error
        case Cancelled => cancelLine(item.customId)
        case Unfinished => "";
      if line == "" {
        error := Some(NoResult(item.customId));
        return;
      }
      assert Ready(item, cancelLine);
      SelectedGrows(items, i, true, cancelLine);
      SelectedGrows(items, i, false, cancelLine);
      if item.status.Completed? {
        WrittenGrows(Selected(items[..i], true, cancelLine), line);
        output := output + line + [NEWLINE];
      } else {
        WrittenGrows(Selected(items[..i], false, cancelLine), line);
        failures := failures + line + [NEWLINE];
      }
    }
  }

  lemma SelectedGrows(items: seq<Done>, i: nat, completed: bool, cancelLine: string -> string)
    requires i < |items|
    ensures Selected(items[..i + 1], completed, cancelLine)
         == if items[i].status.Completed? == completed
            then Selected(items[..i], completed, cancelLine) + [LineOf(items[i], cancelLine)]
            else Selected(items[..i], completed, cancelLine)
  {
    assert items[..i + 1][..i] == items[..i];
  }

  lemma NothingSelected(completed: bool, cancelLine: string -> string)
    ensures Written(Selected([], completed, cancelLine)) == ""
  {
  }

  lemma {:induction false} WrittenGrows(lines: seq<string>, line: string)
    ensures Written(lines + [line]) == Written(lines) + line + [NEWLINE]
  {
    if lines == [] {
      assert lines + [line] == [line] && Written([line][1..]) == "";
    } else {
      WrittenGrows(lines[1..], line);
      assert (lines + [line])[1..] == lines[1..] + [line];
    }
  }

  /** Every request has exactly one line, in one file, after those of the requests before it. */
  lemma {:induction false} OneLineEach(items: seq<Done>, k: nat, cancelLine: string -> string)
    requires k < |items|
    ensures |Selected(items, true, cancelLine)| + |Selected(items, false, cancelLine)| == |items|
    ensures var mine := items[k].status.Completed?;
      var place := |Selected(items[..k], mine, cancelLine)|;
      && place < |Selected(items, mine, cancelLine)|
      && Selected(items, mine, cancelLine)[place] == LineOf(items[k], cancelLine)
      && LineOf(items[k], cancelLine) == match items[k].status
           case Completed => items[k].response
           case Failed => items[k].error
           case Cancelled => cancelLine(items[k].customId)
           case Unfinished => ""
    decreases |items|
  {
    var n := |items| - 1;
    SelectedCount(items, cancelLine);
    if k < n {
      OneLineEach(items[..n], k, cancelLine);
      assert items[..n][..k] == items[..k];
    }
  }

  lemma {:induction false} SelectedCount(items: seq<Done>, cancelLine: string -> string)
    ensures |Selected(items, true, cancelLine)| + |Selected(items, false, cancelLine)| == |items|
  {
    if items != [] {
      SelectedCount(items[..|items| - 1], cancelLine);
    }
  }

  /** A request has a result when it is finished and its line is not empty. */
  lemma ReadyExactly(item: Done, cancelLine: string -> string)
    ensures Ready(item, cancelLine) <==>
      || (item.status.Completed? && item.response != "") || (item.status.Failed? && item.error != "")
      || (item.status.Cancelled? && cancelLine(item.customId) != "")
  {
  }

  /** The file of the completed requests, or of the others. */
  function FileOf(done: seq<Done>, completed: bool, cancelLine: string -> string): string {
    Written(Selected(done, completed, cancelLine))
  }

  /** No result contains a line break. */
  ghost predicate OnOneLine(done: seq<Done>, cancelLine: string -> string) {
    forall k :: 0 <= k < |done| ==> NEWLINE !in LineOf(done[k], cancelLine)
  }

  /** The files are read back as the results that were written to them. */
  ghost predicate ReadBack(done: seq<Done>, cancelLine: string -> string) {
    && Lines(FileOf(done, true, cancelLine)) == Selected(done, true, cancelLine)
    && Lines(FileOf(done, false, cancelLine)) == Selected(done, false, cancelLine)
  }

  lemma {:induction false} SelectedAreLines(done: seq<Done>, completed: bool, cancelLine: string -> string)
    requires OnOneLine(done, cancelLine)
    ensures forall i :: 0 <= i < |Selected(done, completed, cancelLine)| ==>
      NEWLINE !in Selected(done, completed, cancelLine)[i]
  {
    if done != [] {
      SelectedAreLines(done[..|done| - 1], completed, cancelLine);
    }
  }

  /** The files are read back exactly when no result contains a line break. */
  lemma FilesAreReadExactly(done: seq<Done>, cancelLine: string -> string)
    ensures ReadBack(done, cancelLine) <==> OnOneLine(done, cancelLine)
  {
    hide Selected, Written, Lines, LineOf;
    WrittenIsRead(Selected(done, true, cancelLine));
    WrittenIsRead(Selected(done, false, cancelLine));
    if OnOneLine(done, cancelLine) {
      SelectedAreLines(done, true, cancelLine);
      SelectedAreLines(done, false, cancelLine);
    }
    forall k | 0 <= k < |done| ensures ReadBack(done, cancelLine) ==> NEWLINE !in LineOf(done[k], cancelLine) {
      OneLineEach(done, k, cancelLine);
    }
  }

  /** The result at position k is a line of the file of its outcome, after those of the requests before it. */
  ghost predicate WrittenAt(done: seq<Done>, k: nat, cancelLine: string -> string)
    requires k < |done|
  {
    var mine := done[k].status.Completed?;
    var lines, place := Lines(FileOf(done, mine, cancelLine)), |Selected(done[..k], mine, cancelLine)|;
    place < |lines| && lines[place] == LineOf(done[k], cancelLine)
  }

  /** The finished requests are the accepted ones, in their order. */
  ghost predicate Finishes(done: seq<Done>, items: seq<Item>) {
    |done| == |items| && forall k :: 0 <= k < |done| ==> done[k].customId == items[k].customId
  }

  /** The requests of the file, one on each line that is not blank, are finished in their order. */
  ghost predicate Answers(f: Formats, lines: seq<string>, done: seq<Done>) {
    && |done| == |Kept(lines)|
    && forall k :: 0 <= k < |done| ==>
         Kept(lines)[k] < |lines| && done[k].customId == CustomId(f, TrimSpace(lines[Kept(lines)[k]]))
  }

  lemma FinishedAnswers(f: Formats, endpoint: string, source: Source, maxLines: int, done: seq<Done>)
    requires Parse(f, endpoint, source, maxLines).Items?
    requires Finishes(done, Parse(f, endpoint, source, maxLines).items)
    ensures Answers(f, Lines(source.text), done)
  {
    hide Parse, Problem, TrimSpace, Lines, Kept;
    ParseExactly(f, endpoint, source, maxLines);
    var items := Parse(f, endpoint, source, maxLines).items;
    assert forall k :: 0 <= k < |done| ==> done[k].customId == items[k].customId;
  }

  /**
   A batch that was accepted and has all its results writes them all. If none contains a
   line break the two files have together one line per request: the request on each line
   that is not blank has its result, under its id, in the file of its outcome and in order.
   */
  lemma BatchIsConserved(
    f: Formats, endpoint: string, source: Source, maxLines: int, done: seq<Done>, cancelLine: string -> string)
    requires Parse(f, endpoint, source, maxLines).Items?
    requires Finishes(done, Parse(f, endpoint, source, maxLines).items)
    requires forall k :: 0 <= k < |done| ==> Ready(done[k], cancelLine)
    ensures ReadyCount(done, cancelLine) == |done| && Answers(f, Lines(source.text), done)
    ensures ReadBack(done, cancelLine) <==> OnOneLine(done, cancelLine)
    ensures OnOneLine(done, cancelLine) ==>
      && |Lines(FileOf(done, true, cancelLine))| + |Lines(FileOf(done, false, cancelLine))|
          == |Kept(Lines(source.text))|
      && forall k :: 0 <= k < |done| ==> WrittenAt(done, k, cancelLine)
  {
    hide Parse, Problem, TrimSpace, Selected, Lines, Kept, LineOf, Written;
    FinishedAnswers(f, endpoint, source, maxLines, done);
    FilesAreReadExactly(done, cancelLine);
    SelectedCount(done, cancelLine);
    if OnOneLine(done, cancelLine) {
      forall k | 0 <= k < |done| ensures WrittenAt(done, k, cancelLine) {
        OneLineEach(done, k, cancelLine);
      }
    }
  }

  /** What is written is read back line by line exactly when no line contains a line break. */
  lemma WrittenIsRead(lines: seq<string>)
    ensures Lines(Written(lines)) == lines <==> forall i :: 0 <= i < |lines| ==> NEWLINE !in lines[i]
  {
    if forall i :: 0 <= i < |lines| ==> NEWLINE !in lines[i] {
      SplitWritten(lines, "");
      assert Written(lines) + "" == Written(lines);
      assert (lines + [""])[..|lines|] == lines;
    } else {
      SplitCount(Written(lines), NEWLINE);
    }
  }

  /** What follows the last line break is a line exactly if there is anything. */
  lemma LinesExactly(lines: seq<string>, rest: string)
    requires (forall i :: 0 <= i < |lines| ==> NEWLINE !in lines[i]) && NEWLINE !in rest
    ensures Lines(Written(lines) + rest) == lines + if rest == "" then [] else [rest]
  {
    SplitWritten(lines, rest);
    assert (lines + [rest])[..|lines|] == lines;
  }

  lemma {:induction false} SplitWritten(lines: seq<string>, rest: string)
    requires forall i :: 0 <= i < |lines| ==> NEWLINE !in lines[i]
    requires NEWLINE !in rest
    ensures Split(Written(lines) + rest, NEWLINE) == lines + [rest]
  {
    if lines == [] {
      SplitWhole(rest, NEWLINE);
      assert Written(lines) + rest == rest;
    } else {
      SplitWritten(lines[1..], rest);
      SplitFront(lines[0], Written(lines[1..]) + rest, NEWLINE);
      assert Written(lines) + rest == lines[0] + [NEWLINE] + (Written(lines[1..]) + rest);
      assert lines == [lines[0]] + lines[1..];
    }
  }
}
