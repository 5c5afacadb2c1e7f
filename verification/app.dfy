/** The single-page controller: parsing the comma-separated company list, the
    four-field search state and its transitions, and the name of the audit
    download. Each awaited call is split into a submit transition and a later
    settle transition. */
module App {
  import opened Wrappers
  import opened Text
  import opened Sequences
  import opened Types
  import ResearchClient

  const FetchFailedMessage: string :=
    "Failed to fetch research data. Please check your API key and try again."

  const AuditFilePrefix: string := "IT_Research_Audit_"
  const AuditFileSuffix: string := ".json"

  predicate NonEmpty(s: string) {
    |s| > 0
  }

  function TrimAll(segments: seq<string>): seq<string> {
    seq(|segments|, k requires 0 <= k < |segments| => Trim(segments[k]))
  }

  /** `input.split(',').map(c => c.trim()).filter(c => c.length > 0)`: at most
      one name per comma-separated segment. */
  function ParseCompanies(input: string): (names: seq<string>)
    ensures |names| <= |Split(input, ',')|
  {
    Filter(NonEmpty, TrimAll(Split(input, ',')))
  }

  /** A name as parsing produces it: non-empty, no blank margin, no comma. */
  predicate Bare(name: string) {
    name != "" && !IsWhitespace(name[0]) && !IsWhitespace(name[|name| - 1]) && ',' !in name
  }

  /** Every parsed name is non-empty, free of commas, and already trimmed. */
  lemma ParsedNamesBare(input: string)
    ensures forall k :: 0 <= k < |ParseCompanies(input)| ==>
              Bare(ParseCompanies(input)[k]) && Trim(ParseCompanies(input)[k]) == ParseCompanies(input)[k]
  {
    var segments := Split(input, ',');
    var trimmed := TrimAll(segments);
    forall k | 0 <= k < |trimmed|
      ensures NonEmpty(trimmed[k]) ==> Bare(trimmed[k]) && Trim(trimmed[k]) == trimmed[k]
    {
      TrimChars(segments[k]);
      TrimIdempotent(segments[k]);
    }
    var names := ParseCompanies(input);
    forall k | 0 <= k < |names|
      ensures Bare(names[k]) && Trim(names[k]) == names[k]
    {
      assert names[k] in trimmed && NonEmpty(names[k]);
    }
  }

  /** Parsing is compositional: a comma splits the input into two lists that are
      parsed independently and kept in order. */
  lemma ParseCompaniesConcat(x: string, y: string)
    ensures ParseCompanies(x + "," + y) == ParseCompanies(x) + ParseCompanies(y)
  {
    SplitConcat(x, y, ',');
    var sx, sy := Split(x, ','), Split(y, ',');
    TrimAllConcat(sx, sy);
    FilterConcat(NonEmpty, TrimAll(sx), TrimAll(sy));
  }

  lemma TrimAllConcat(a: seq<string>, b: seq<string>)
    ensures TrimAll(a + b) == TrimAll(a) + TrimAll(b)
  {
  }

  /** When no segment is blank, there is one name per comma-separated segment:
      the segment itself, trimmed. */
  lemma ParseCompaniesNoBlankSegment(input: string)
    requires forall k :: 0 <= k < |Split(input, ',')| ==> !AllWhitespace(Split(input, ',')[k])
    ensures |ParseCompanies(input)| == |Split(input, ',')|
    ensures ParseCompanies(input) == TrimAll(Split(input, ','))
  {
    var segments := Split(input, ',');
    forall k | 0 <= k < |segments|
      ensures NonEmpty(TrimAll(segments)[k])
    {
      TrimBlankIff(segments[k]);
    }
    FilterKeepsAll(NonEmpty, TrimAll(segments));
  }

  /** A segment that holds something besides whitespace. */
  predicate NotBlank(segment: string) {
    !AllWhitespace(segment)
  }

  /** Trimming and then dropping empty names is dropping blank segments and then
      trimming. */
  lemma {:induction false} FilterTrimAll(segments: seq<string>)
    ensures Filter(NonEmpty, TrimAll(segments)) == TrimAll(Filter(NotBlank, segments))
  {
    if |segments| > 0 {
      var head, rest := [segments[0]], segments[1..];
      assert segments == head + rest;
      FilterTrimAll(rest);
      TrimAllConcat(head, rest);
      FilterConcat(NonEmpty, TrimAll(head), TrimAll(rest));
      FilterConcat(NotBlank, head, rest);
      FilterTrimAllSingle(segments[0]);
      TrimAllConcat(Filter(NotBlank, head), Filter(NotBlank, rest));
    }
  }

  lemma FilterTrimAllSingle(segment: string)
    ensures Filter(NonEmpty, TrimAll([segment])) == TrimAll(Filter(NotBlank, [segment]))
  {
    var trimmed := Trim(segment);
    TrimBlankIff(segment);
    assert TrimAll([segment]) == [trimmed];
    if NotBlank(segment) {
      FilterKeepsAll(NonEmpty, [trimmed]);
      FilterKeepsAll(NotBlank, [segment]);
    } else {
      FilterEmptyIff(NonEmpty, [trimmed]);
      FilterEmptyIff(NotBlank, [segment]);
    }
  }

  /** In general there is one name per segment that is not blank: that segment,
      trimmed, in input order. */
  lemma ParseCompaniesNonBlank(input: string)
    ensures ParseCompanies(input) == TrimAll(Filter(NotBlank, Split(input, ',')))
    ensures |ParseCompanies(input)| == |Filter(NotBlank, Split(input, ','))|
  {
    FilterTrimAll(Split(input, ','));
  }

  predicate AllBlank(segments: seq<string>) {
    forall k :: 0 <= k < |segments| ==> AllWhitespace(segments[k])
  }

  predicate CommasAndBlanks(s: string) {
    forall i :: 0 <= i < |s| ==> s[i] == ',' || IsWhitespace(s[i])
  }

  lemma CommasAndBlanksCons(s: string)
    requires |s| > 0
    ensures CommasAndBlanks(s) <==> (s[0] == ',' || IsWhitespace(s[0])) && CommasAndBlanks(s[1..])
  {
    assert forall i :: 1 <= i < |s| ==> s[i] == s[1..][i - 1];
  }

  lemma AllBlankCons(head: string, rest: seq<string>)
    ensures AllBlank([head] + rest) <==> AllWhitespace(head) && AllBlank(rest)
  {
    var parts := [head] + rest;
    if AllBlank(parts) {
      assert parts[0] == head;
      forall k | 0 <= k < |rest| ensures AllWhitespace(rest[k]) { assert rest[k] == parts[k + 1]; }
    }
    if AllWhitespace(head) && AllBlank(rest) {
      forall k | 0 <= k < |parts| ensures AllWhitespace(parts[k]) {
        if k > 0 { assert parts[k] == rest[k - 1]; }
      }
    }
  }

  lemma AllWhitespaceCons(c: char, s: string)
    ensures AllWhitespace([c] + s) <==> IsWhitespace(c) && AllWhitespace(s)
  {
    var t := [c] + s;
    if AllWhitespace(t) {
      assert t[0] == c;
      forall i | 0 <= i < |s| ensures IsWhitespace(s[i]) { assert s[i] == t[i + 1]; }
    }
    if IsWhitespace(c) && AllWhitespace(s) {
      forall i | 0 <= i < |t| ensures IsWhitespace(t[i]) {
        if i > 0 { assert t[i] == s[i - 1]; }
      }
    }
  }

  /** Splitting on commas yields only blank segments exactly when the text is
      made of commas and whitespace alone. */
  lemma {:induction false} BlankSegmentsIff(s: string)
    ensures AllBlank(Split(s, ',')) <==> CommasAndBlanks(s)
  {
    if |s| > 0 {
      BlankSegmentsIff(s[1..]);
      CommasAndBlanksCons(s);
      var rest := Split(s[1..], ',');
      if s[0] == ',' {
        assert Split(s, ',') == [""] + rest;
        AllBlankCons("", rest);
      } else {
        var head := [s[0]] + rest[0];
        assert Split(s, ',') == [head] + rest[1..];
        AllBlankCons(head, rest[1..]);
        AllWhitespaceCons(s[0], rest[0]);
        assert rest == [rest[0]] + rest[1..];
        AllBlankCons(rest[0], rest[1..]);
      }
    }
  }

  /** No company is found exactly when the input consists of commas and
      whitespace only (the empty input included). */
  lemma ParseCompaniesEmptyIff(input: string)
    ensures ParseCompanies(input) == [] <==> CommasAndBlanks(input)
  {
    var segments := Split(input, ',');
    var trimmed := TrimAll(segments);
    FilterEmptyIff(NonEmpty, trimmed);
    forall k | 0 <= k < |segments|
      ensures !NonEmpty(trimmed[k]) <==> AllWhitespace(segments[k])
    {
      TrimBlankIff(segments[k]);
    }
    BlankSegmentsIff(input);
  }

  lemma ParseCompaniesSingle(name: string)
    requires Bare(name)
    ensures ParseCompanies(name) == [name]
  {
    SplitWithoutSeparator(name, ',');
    TrimNoMargins(name);
    assert TrimAll([name]) == [name];
  }

  /** Parsing a comma-joined list parses its head and its comma-joined tail. */
  lemma JoinStep(first: string, tail: seq<string>)
    requires |tail| >= 1
    ensures ParseCompanies(Join([first] + tail, ",")) == ParseCompanies(first) + ParseCompanies(Join(tail, ","))
  {
    assert ([first] + tail)[1..] == tail;
    ParseCompaniesConcat(first, Join(tail, ","));
  }

  /** A name after the customary space that follows a comma parses to itself. */
  lemma ParseCompaniesSpaced(name: string)
    requires Bare(name)
    ensures ParseCompanies(" " + name) == [name]
  {
    SplitWithoutSeparator(" " + name, ',');
    TrimLeadingSpace(name);
    assert TrimAll([" " + name]) == [name];
  }

  /** An empty segment in front keeps no name. */
  lemma DropsEmptyHead(segments: seq<string>)
    ensures Filter(NonEmpty, TrimAll([""] + segments)) == Filter(NonEmpty, TrimAll(segments))
  {
    var trimmed := TrimAll(segments);
    assert TrimAll([""] + segments) == [""] + trimmed by {
      TrimAllConcat([""], segments);
      TrimBlankIff("");
    }
    assert Filter(NonEmpty, [""] + trimmed) == Filter(NonEmpty, trimmed) by {
      FilterEmptyIff(NonEmpty, [""]);
      FilterConcat(NonEmpty, [""], trimmed);
    }
  }

  /** A leading empty segment contributes no name. */
  lemma ParseCompaniesLeadingEmpty(rest: string)
    ensures ParseCompanies("," + rest) == ParseCompanies(rest)
  {
    assert Split("," + rest, ',') == [""] + Split(rest, ',') by {
      assert ("," + rest)[1..] == rest;
    }
    DropsEmptyHead(Split(rest, ','));
  }

  /** An empty segment between two commas contributes no name: "a, b,, c"
      names `a`, `b` and `c`, as "TCS, Infosys,, Wipro" names three companies. */
  lemma ParseCompaniesSkipsEmpty(a: string, b: string, c: string)
    requires Bare(a) && Bare(b) && Bare(c)
    ensures ParseCompanies(a + "," + (" " + b + "," + ("," + (" " + c)))) == [a, b, c]
  {
    var last := "," + (" " + c);
    ParseCompaniesSpaced(c);
    ParseCompaniesLeadingEmpty(" " + c);
    ParseCompaniesSpaced(b);
    ParseCompaniesConcat(" " + b, last);
    ParseCompaniesSingle(a);
    ParseCompaniesConcat(a, " " + b + "," + last);
  }

  /** A bare name in front of a non-empty comma-joined list is parsed as that
      name followed by the list's names. */
  lemma JoinCons(head: string, tail: seq<string>)
    requires Bare(head) && |tail| >= 1
    ensures ParseCompanies(Join([head] + tail, ",")) == [head] + ParseCompanies(Join(tail, ","))
  {
    ParseCompaniesSingle(head);
    JoinStep(head, tail);
  }

  /** A list of bare names written back with commas parses to itself. */
  lemma {:induction false} ParseCompaniesJoin(names: seq<string>)
    requires |names| >= 1
    requires forall k :: 0 <= k < |names| ==> Bare(names[k])
    ensures ParseCompanies(Join(names, ",")) == names
  {
    if |names| == 1 {
      ParseCompaniesSingle(names[0]);
    } else {
      ParseCompaniesJoin(names[1..]);
      JoinCons(names[0], names[1..]);
      assert [names[0]] + names[1..] == names;
    }
  }

  /** The controller's state. */
  datatype State = State(input: string, loading: bool, result: Option<ResearchResult>, error: Option<string>)

  const Initial: State := State("", false, None, None)

  /** At most one of "loading", "a result is shown" and "an error is shown". */
  predicate Exclusive(st: State) {
    && !(st.loading && st.result.Some?)
    && !(st.loading && st.error.Some?)
    && !(st.result.Some? && st.error.Some?)
  }

  /** `handleSearch` up to its `await`: a blank list changes nothing and sends no
      request; otherwise the state enters loading with result and error cleared,
      and the parsed names are requested. The control that triggers it is
      disabled while loading. */
  function Submit(st: State): (out: (State, Option<seq<string>>))
    requires !st.loading
    ensures out.1.None? <==> CommasAndBlanks(st.input)
    ensures out.1.None? ==> out.0 == st
    ensures out.1.Some? ==> out.1.value == ParseCompanies(st.input) && out.1.value != []
    ensures out.1.Some? ==> out.0 == State(st.input, true, None, None)
  {
    ParseCompaniesEmptyIff(st.input);
    TrimBlankIff(st.input);
    if Trim(st.input) == [] then (st, None)
    else
      var companies := ParseCompanies(st.input);
      if |companies| == 0 then (st, None)
      else (st.(loading := true, error := None, result := None), Some(companies))
  }

  /** The `await` resolved: the result is shown and loading ends. */
  function Succeed(st: State, data: ResearchResult): (r: State)
    requires st.loading
    ensures r.result == Some(data) && !r.loading
    ensures r.error == st.error && r.input == st.input
  {
    st.(result := Some(data), loading := false)
  }

  /** The `await` threw: its message, or the fixed fallback when the message is
      empty, is shown and loading ends. */
  function Fail(st: State, message: string): (r: State)
    requires st.loading
    ensures r.error.Some? && r.error.value != ""
    ensures message != "" ==> r.error == Some(message)
    ensures message == "" ==> r.error == Some(FetchFailedMessage)
    ensures !r.loading && r.result == st.result && r.input == st.input
  {
    st.(error := Some(if message != "" then message else FetchFailedMessage), loading := false)
  }

  /** The `await` settled, either way: loading ends, and exactly one of result
      and error is then shown. */
  function Settle(st: State, outcome: Result<ResearchResult, string>): (r: State)
    requires st.loading
    ensures !r.loading && r.input == st.input
    ensures outcome.Success? ==> r.result == Some(outcome.value) && r.error == st.error
    ensures outcome.Failure? ==> r.error.Some? && r.error.value != "" && r.result == st.result
    ensures outcome.Failure? ==> r.error == Some(if outcome.error != "" then outcome.error else FetchFailedMessage)
    ensures st.result.None? && st.error.None? ==> (r.result.Some? <==> r.error.None?)
  {
    match outcome
    case Success(data) => Succeed(st, data)
    case Failure(message) => Fail(st, message)
  }

  /** What can happen to the controller. `Resolve` and `Reject` end the request in
      flight; without one they do not arise and are ignored, and `Search` and
      `Edit` are ignored while loading because their controls are disabled. */
  datatype Event = Edit(text: string) | Search | Resolve(data: ResearchResult) | Reject(message: string)

  function Step(st: State, e: Event): (r: State)
    ensures st.loading && (e.Edit? || e.Search?) ==> r == st
    ensures !st.loading && (e.Resolve? || e.Reject?) ==> r == st
    ensures !e.Edit? ==> r.input == st.input
    ensures e.Search? && !st.loading ==> (r.loading <==> !CommasAndBlanks(st.input))
    ensures !st.loading && e.Edit? ==> r == st.(input := e.text)
    ensures !st.loading && e.Search? ==>
              r == (if CommasAndBlanks(st.input) then st else State(st.input, true, None, None))
    ensures st.loading && e.Resolve? ==> !r.loading && r.result == Some(e.data) && r.error == st.error
    ensures st.loading && e.Reject? ==>
              && !r.loading && r.result == st.result
              && r.error == Some(if e.message != "" then e.message else FetchFailedMessage)
  {
    match e
    case Edit(text) => if st.loading then st else st.(input := text)
    case Search => if st.loading then st else Submit(st).0
    case Resolve(data) => if st.loading then Settle(st, Success(data)) else st
    case Reject(message) => if st.loading then Settle(st, Failure(message)) else st
  }

  /** The state after a sequence of events; only `Edit` changes the input. */
  function Run(st: State, events: seq<Event>): (r: State)
    ensures (forall k :: 0 <= k < |events| ==> !events[k].Edit?) ==> r.input == st.input
    decreases |events|
  {
    if |events| == 0 then st else Run(Step(st, events[0]), events[1..])
  }

  lemma StepKeepsExclusive(st: State, e: Event)
    requires Exclusive(st)
    ensures Exclusive(Step(st, e))
  {
  }

  /** Running a single event is taking one step. */
  lemma RunSingle(st: State, e: Event)
    ensures Run(st, [e]) == Step(st, e)
  {
  }

  /** Running two event sequences one after the other is running their
      concatenation: the state after the first is where the second starts. */
  lemma {:induction false} RunConcat(st: State, a: seq<Event>, b: seq<Event>)
    ensures Run(st, a + b) == Run(Run(st, a), b)
    decreases |a|
  {
    if |a| > 0 {
      assert (a + b)[0] == a[0];
      assert (a + b)[1..] == a[1..] + b;
      RunConcat(Step(st, a[0]), a[1..], b);
    } else {
      assert a + b == b;
    }
  }

  lemma {:induction false} RunKeepsExclusive(st: State, events: seq<Event>)
    requires Exclusive(st)
    ensures Exclusive(Run(st, events))
    decreases |events|
  {
    if |events| > 0 {
      StepKeepsExclusive(st, events[0]);
      RunKeepsExclusive(Step(st, events[0]), events[1..]);
    }
  }

  /** From the initial state, no sequence of events ever shows a spinner together
      with a result or an error, or a result together with an error. */
  lemma ReachableStatesExclusive(events: seq<Event>)
    ensures Exclusive(Run(Initial, events))
  {
    RunKeepsExclusive(Initial, events);
  }

  /** A reply without braces ends the search in the failure state with the
      extraction message. */
  lemma BracelessReplyFails(st: State, text: Option<string>, chunks: Option<seq<ResearchClient.GroundingChunk>>,
                            parse: string -> Result<ResearchClient.ParsedResult, string>)
    requires !st.loading && !CommasAndBlanks(st.input)
    requires '{' !in text.GetOr("") || '}' !in text.GetOr("")
    ensures var loading := Submit(st).0;
      var done := Settle(loading, ResearchClient.PerformResearch(Success(ResearchClient.Response(text, chunks)), parse));
      && done.error == Some(ResearchClient.InvalidJsonMessage) && done.result.None? && !done.loading
  {
    var loading := Submit(st).0;
    assert loading == State(st.input, true, None, None);
    var outcome := ResearchClient.PerformResearch(Success(ResearchClient.Response(text, chunks)), parse);
    assert outcome == Failure(ResearchClient.InvalidJsonMessage);
  }

  /** `downloadFullAuditPackage`: nothing without a result; otherwise the file is
      named after the date part of the ISO timestamp, the text before its first 'T'. */
  function DownloadName(result: Option<ResearchResult>, isoNow: string): (name: Option<string>)
    ensures name.None? <==> result.None?
    ensures name.Some? ==>
              var n := name.value;
              && |n| >= |AuditFilePrefix| + |AuditFileSuffix|
              && n[..|AuditFilePrefix|] == AuditFilePrefix
              && n[|n| - |AuditFileSuffix|..] == AuditFileSuffix
              && var date := n[|AuditFilePrefix|..|n| - |AuditFileSuffix|];
              && StartsWith(isoNow, date)
              && 'T' !in date
              && (|date| < |isoNow| ==> isoNow[|date|] == 'T')
  {
    if result.None? then None
    else
      var date := Split(isoNow, 'T')[0];
      var n := AuditFilePrefix + date + AuditFileSuffix;
      assert n[|AuditFilePrefix|..|n| - |AuditFileSuffix|] == date;
      Some(n)
  }
}
