/** The self-contained log helpers of the error analyzer's CloudWatch tool:
    building a filter pattern, deriving a log-group prefix from a state-machine
    ARN, dropping noise events, and counting error keywords. */
module CloudWatchTool {
  import opened Wrappers
  import opened PyStrings

  // ---------------------------------------------------------------------------
  // Filter pattern
  // ---------------------------------------------------------------------------

  /** Python truthiness of an optional string: `None` and `""` are false. */
  predicate Truthy(o: Option<string>) {
    o.Some? && o.value != ""
  }

  /** `base_pattern.replace(":", "")`. */
  function Sanitize(basePattern: string): (r: string)
    ensures r == DropChar(basePattern, ':')
  {
    ReplaceCharIsDrop(basePattern, ':');
    Replace(basePattern, ":", "")
  }

  /** `_build_filter_pattern(base_pattern, request_id)`: the request ID and the
      colon-free base pattern combined in brackets when both are given, the
      request ID verbatim when only it is given, the colon-free base pattern
      otherwise (which is `""` when that is empty too). */
  function BuildFilterPattern(basePattern: string, requestId: Option<string>): (r: string)
    ensures Truthy(requestId) && basePattern != "" ==>
              r == "[" + requestId.value + ", " + DropChar(basePattern, ':') + "]"
    ensures Truthy(requestId) && basePattern == "" ==> r == requestId.value
    ensures !Truthy(requestId) ==> r == DropChar(basePattern, ':') && ':' !in r
    ensures !Truthy(requestId) && basePattern == "" ==> r == ""
  {
    if Truthy(requestId) && basePattern != "" then
      "[" + requestId.value + ", " + Sanitize(basePattern) + "]"
    else if Truthy(requestId) then
      requestId.value
    else if basePattern != "" then
      Sanitize(basePattern)
    else
      ""
  }

  // ---------------------------------------------------------------------------
  // Log-group prefix from a Step Functions state-machine ARN
  // ---------------------------------------------------------------------------

  const StateMachineMarker: string := ":stateMachine:"
  const WorkflowSuffix: string := "-DocumentProcessingWorkflow"

  /** `arn.split(":stateMachine:")[-1]`: the whole ARN when the marker is
      absent; otherwise the suffix after the last `:stateMachine:` that a
      left-to-right split finds, which holds no further `:stateMachine:`. */
  function StateMachineName(arn: string): (name: string)
    ensures !Contains(arn, StateMachineMarker) ==> name == arn
    ensures Contains(arn, StateMachineMarker) ==>
              |name| + |StateMachineMarker| <= |arn| &&
              arn[|arn| - |name|..] == name &&
              arn[|arn| - |name| - |StateMachineMarker|..|arn| - |name|] == StateMachineMarker &&
              !Contains(name, StateMachineMarker)
  {
    SplitLastPiece(arn, StateMachineMarker);
    var parts := Split(arn, StateMachineMarker);
    parts[|parts| - 1]
  }

  /** `_extract_prefix_from_state_machine_arn(arn)`. */
  function ExtractPrefixFromStateMachineArn(arn: string): (r: string)
    ensures !Contains(arn, StateMachineMarker) ==> r == ""
  {
    if Contains(arn, StateMachineMarker) then
      var name := StateMachineName(arn);
      if Contains(name, WorkflowSuffix) then
        Replace(name, WorkflowSuffix, "")
      else
        var parts := Split(name, "-");
        if |parts| > 1 then Join("-", parts[..|parts| - 1]) else ""
    else
      ""
  }

  /** A name holding `-DocumentProcessingWorkflow` loses every occurrence that a
      left-to-right scan finds, and so gets strictly shorter. */
  lemma PrefixOfWorkflowName(arn: string)
    requires Contains(arn, StateMachineMarker)
    requires Contains(StateMachineName(arn), WorkflowSuffix)
    ensures var name := StateMachineName(arn);
            var r := ExtractPrefixFromStateMachineArn(arn);
            r == Replace(name, WorkflowSuffix, "") && |r| + |WorkflowSuffix| <= |name|
  {
  }

  /** Any other name is cut before its last `-`; a name without `-` yields `""`. */
  lemma PrefixOfOtherName(arn: string)
    requires Contains(arn, StateMachineMarker)
    requires !Contains(StateMachineName(arn), WorkflowSuffix)
    ensures var name := StateMachineName(arn);
            var r := ExtractPrefixFromStateMachineArn(arn);
            ('-' !in name ==> r == "") &&
            ('-' in name ==>
               |r| < |name| && name[..|r|] == r && name[|r|] == '-' && '-' !in name[|r| + 1..])
  {
    var name := StateMachineName(arn);
    ContainsChar(name, '-');
    SplitPieces(name, "-");
    if '-' in name {
      var parts := Split(name, "-");
      SplitLast(name, "-");
      var r := Join("-", parts[..|parts| - 1]);
      assert name == r + "-" + parts[|parts| - 1];
      assert name[|r| + 1..] == parts[|parts| - 1];
      ContainsChar(parts[|parts| - 1], '-');
    }
  }

  // ---------------------------------------------------------------------------
  // Noise filtering
  // ---------------------------------------------------------------------------

  /** Filter patterns under which INFO and Lambda system lines are dropped. */
  const ErrorPatterns: seq<string> := ["[ERROR]", "[WARN]", "ERROR:", "WARN:", "Exception", "Failed"]

  /** Prefixes of the Lambda runtime's own log lines. */
  const SystemPrefixes: seq<string> := ["INIT_START", "START", "END", "REPORT"]

  /** Message fragments that add nothing to an error analysis. */
  const ExcludeContent: seq<string> :=
    ["Config:", "\"sample_json\"", "Processing event:", "Initialized", "Starting", "Debug:", "Trace:"]

  /** Messages longer than this are dropped. */
  const MaxMessageLength: nat := 1000

  /** The stripped message is an INFO line or a Lambda system line. */
  predicate IsInfoOrSystemLine(message: string) {
    var stripped := Strip(message);
    StartsWith(stripped, "[INFO]") || exists p :: p in SystemPrefixes && StartsWith(stripped, p)
  }

  /** The message holds one of the excluded fragments. */
  predicate HasExcludedContent(message: string) {
    exists x :: x in ExcludeContent && Contains(message, x)
  }

  /** `_should_exclude_log_event(message, filter_pattern)`. */
  function ShouldExcludeLogEvent(message: string, filterPattern: string): (r: bool)
    ensures r <==> (filterPattern in ErrorPatterns && IsInfoOrSystemLine(message))
                   || HasExcludedContent(message)
                   || |message| > MaxMessageLength
  {
    var stripped := Strip(message);
    if filterPattern in ErrorPatterns && StartsWith(stripped, "[INFO]") then true
    else if filterPattern in ErrorPatterns && exists p :: p in SystemPrefixes && StartsWith(stripped, p) then true
    else if exists x :: x in ExcludeContent && Contains(message, x) then true
    else if |message| > MaxMessageLength then true
    else false
  }

  /** Outside the six error patterns the filter pattern makes no difference. */
  lemma ExclusionIgnoresOtherPatterns(message: string, p: string, q: string)
    requires p !in ErrorPatterns && q !in ErrorPatterns
    ensures ShouldExcludeLogEvent(message, p) == ShouldExcludeLogEvent(message, q)
  {
  }

  /** An error pattern drops everything any other pattern drops. */
  lemma ErrorPatternsDropMore(message: string, p: string, q: string)
    requires q in ErrorPatterns
    ensures ShouldExcludeLogEvent(message, p) ==> ShouldExcludeLogEvent(message, q)
  {
  }

  // ---------------------------------------------------------------------------
  // Error keyword counting
  // ---------------------------------------------------------------------------

  /** A CloudWatch log event. */
  datatype LogEvent = LogEvent(timestamp: string, message: string, logStreamName: string)

  /** The keywords counted, in the order they are tried. */
  const ErrorKeywords: seq<string> :=
    ["error", "exception", "failed", "failure", "timeout", "fatal",
     "critical", "panic", "abort", "crash", "denied", "refused"]

  /** How many of the most common keywords are returned. */
  const TopCount: nat := 10

  /** The number of events whose lower-cased message contains `keyword`. */
  function Hits(events: seq<LogEvent>, keyword: string): (n: nat)
    ensures n <= |events|
  {
    if |events| == 0 then 0
    else Hits(events[..|events| - 1], keyword) +
         (if Contains(Lower(events[|events| - 1].message), keyword) then 1 else 0)
  }

  /** A `Counter`'s items, in insertion order. */
  type Tally = seq<(string, nat)>

  /** `counter[keyword]`: zero when absent. */
  function Lookup(t: Tally, keyword: string): nat {
    if |t| == 0 then 0
    else if t[0].0 == keyword then t[0].1
    else Lookup(t[1..], keyword)
  }

  /** `counter[keyword] += 1`: bumps an existing entry in place, or appends a
      new entry with count 1. */
  function Bump(t: Tally, keyword: string): (r: Tally)
    ensures Keys(r) == Keys(t) + {keyword}
    ensures |r| == |t| + (if keyword in Keys(t) then 0 else 1)
  {
    if |t| == 0 then
      KeysCons((keyword, 1), []);
      [(keyword, 1)] + []
    else
      assert t == [t[0]] + t[1..];
      KeysCons(t[0], t[1..]);
      if t[0].0 == keyword then
        KeysCons((keyword, t[0].1 + 1), t[1..]);
        [(keyword, t[0].1 + 1)] + t[1..]
      else
        KeysCons(t[0], Bump(t[1..], keyword));
        [t[0]] + Bump(t[1..], keyword)
  }

  /** The keys of a tally. */
  function Keys(t: Tally): set<string> {
    set i | 0 <= i < |t| :: t[i].0
  }

  /** What a `Counter` holds: distinct keys, each with a positive count. */
  predicate WellFormed(t: Tally) {
    && (forall i, j :: 0 <= i < j < |t| ==> t[i].0 != t[j].0)
    && (forall i :: 0 <= i < |t| ==> t[i].1 >= 1)
  }

  /** The inner loop over the keywords for one lower-cased message. */
  function TallyMessage(t: Tally, lower: string, keywords: seq<string>): (r: Tally)
    decreases |keywords|
    ensures Keys(r) == Keys(t) + (set k | k in keywords && Contains(lower, k))
  {
    if |keywords| == 0 then t
    else
      var before := TallyMessage(t, lower, keywords[..|keywords| - 1]);
      var k := keywords[|keywords| - 1];
      assert keywords == keywords[..|keywords| - 1] + [k];
      if Contains(lower, k) then Bump(before, k) else before
  }

  /** The counter after the outer loop has seen `events`: its keys are exactly
      the keywords some event mentions. */
  function TallyEvents(events: seq<LogEvent>): (r: Tally)
    ensures Keys(r) == set k | k in ErrorKeywords && Hits(events, k) > 0
  {
    if |events| == 0 then []
    else TallyMessage(TallyEvents(events[..|events| - 1]), Lower(events[|events| - 1].message), ErrorKeywords)
  }

  /** A well-formed tally's entries are its lookups. */
  lemma {:induction false} LookupEntry(t: Tally, i: nat)
    requires WellFormed(t) && i < |t|
    ensures Lookup(t, t[i].0) == t[i].1
  {
    if i > 0 {
      assert WellFormed(t[1..]);
      LookupEntry(t[1..], i - 1);
    }
  }

  /** A key outside a tally looks up as zero. */
  lemma {:induction false} LookupAbsent(t: Tally, k: string)
    requires k !in Keys(t)
    ensures Lookup(t, k) == 0
  {
    if |t| > 0 {
      assert Keys(t[1..]) <= Keys(t) by {
        forall x | x in Keys(t[1..]) ensures x in Keys(t) {
          var i :| 0 <= i < |t[1..]| && t[1..][i].0 == x;
          assert t[i + 1].0 == x;
        }
      }
      LookupAbsent(t[1..], k);
    }
  }

  /** The keys of a tally with one more entry in front. */
  lemma KeysCons(e: (string, nat), t: Tally)
    ensures Keys([e] + t) == {e.0} + Keys(t)
  {
    var c := [e] + t;
    assert c[0].0 == e.0;
    assert e.0 in Keys(c);
    forall x | x in Keys(t) ensures x in Keys(c) {
      var i :| 0 <= i < |t| && t[i].0 == x;
      assert c[i + 1].0 == x;
    }
    forall x | x in Keys(c) && x != e.0 ensures x in Keys(t) {
      var i :| 0 <= i < |c| && c[i].0 == x;
      assert i > 0 && c[i] == t[i - 1];
    }
  }

  /** A well-formed tally splits into its first entry and a well-formed rest
      that does not hold the first key. */
  lemma WellFormedCons(t: Tally)
    requires |t| > 0
    ensures WellFormed(t) <==> WellFormed(t[1..]) && t[0].1 >= 1 && t[0].0 !in Keys(t[1..])
  {
    assert t == [t[0]] + t[1..];
    if t[0].0 in Keys(t[1..]) {
      var i :| 0 <= i < |t[1..]| && t[1..][i].0 == t[0].0;
      assert t[i + 1].0 == t[0].0;
    }
    if WellFormed(t[1..]) && t[0].1 >= 1 && t[0].0 !in Keys(t[1..]) {
      forall j | 0 < j < |t| ensures t[0].0 != t[j].0 {
        assert t[j] == t[1..][j - 1];
      }
    }
  }

  /** Bumping a key raises its count by one and keeps the tally well formed. */
  lemma {:induction false} BumpCounts(t: Tally, k: string)
    requires WellFormed(t)
    ensures WellFormed(Bump(t, k))
    ensures forall x :: Lookup(Bump(t, k), x) == Lookup(t, x) + (if x == k then 1 else 0)
  {
    var b := Bump(t, k);
    if |t| == 0 {
      assert b == [(k, 1)] + [];
      KeysCons((k, 1), []);
    } else {
      assert t == [t[0]] + t[1..];
      KeysCons(t[0], t[1..]);
      WellFormedCons(t);
      WellFormedCons(b);
      if t[0].0 == k {
        assert b == [(k, t[0].1 + 1)] + t[1..];
        KeysCons((k, t[0].1 + 1), t[1..]);
      } else {
        BumpCounts(t[1..], k);
        assert b == [t[0]] + Bump(t[1..], k);
        KeysCons(t[0], Bump(t[1..], k));
      }
    }
  }

  /** The keywords are pairwise different. */
  predicate Distinct(keywords: seq<string>) {
    forall i, j :: 0 <= i < j < |keywords| ==> keywords[i] != keywords[j]
  }

  /** The inner loop adds one to the count of every keyword the message holds. */
  lemma {:induction false} TallyMessageCounts(t: Tally, lower: string, keywords: seq<string>)
    requires WellFormed(t) && Distinct(keywords)
    ensures var r := TallyMessage(t, lower, keywords);
            WellFormed(r) &&
            forall x :: Lookup(r, x) == Lookup(t, x) + (if x in keywords && Contains(lower, x) then 1 else 0)
    decreases |keywords|
  {
    if |keywords| > 0 {
      var init := keywords[..|keywords| - 1];
      var k := keywords[|keywords| - 1];
      assert keywords == init + [k];
      assert Distinct(init) by {
        forall i, j | 0 <= i < j < |init| ensures init[i] != init[j] {
          assert init[i] == keywords[i] && init[j] == keywords[j];
        }
      }
      assert k !in init;
      TallyMessageCounts(t, lower, init);
      var before := TallyMessage(t, lower, init);
      var r := TallyMessage(t, lower, keywords);
      assert r == if Contains(lower, k) then Bump(before, k) else before;
      if Contains(lower, k) {
        BumpCounts(before, k);
      }
      forall x ensures Lookup(r, x) == Lookup(t, x) + (if x in keywords && Contains(lower, x) then 1 else 0) {
        assert x in keywords <==> x in init || x == k;
      }
    }
  }

  /** The keywords are distinct. */
  lemma ErrorKeywordsDistinct()
    ensures Distinct(ErrorKeywords)
  {
  }

  /** The counter holds, for each keyword, the number of events that mention it,
      and nothing else. */
  lemma {:induction false} TallyEventsCounts(events: seq<LogEvent>)
    ensures var t := TallyEvents(events);
            WellFormed(t) &&
            forall x :: Lookup(t, x) == if x in ErrorKeywords then Hits(events, x) else 0
    decreases |events|
  {
    if |events| > 0 {
      var init := events[..|events| - 1];
      TallyEventsCounts(init);
      ErrorKeywordsDistinct();
      TallyMessageCounts(TallyEvents(init), Lower(events[|events| - 1].message), ErrorKeywords);
    }
  }

  /** Places `e` before the first entry whose count is not larger, so that among
      equal counts the earlier entry stays first. */
  function InsertByCount(e: (string, nat), sorted: Tally): (r: Tally)
    ensures multiset(r) == multiset(sorted) + multiset{e}
    ensures |r| == |sorted| + 1
  {
    if |sorted| == 0 then [e]
    else if sorted[0].1 > e.1 then
      assert sorted == [sorted[0]] + sorted[1..];
      [sorted[0]] + InsertByCount(e, sorted[1..])
    else [e] + sorted
  }

  /** Counts never increase from left to right. */
  predicate SortedByCount(t: Tally) {
    forall i, j :: 0 <= i < j < |t| ==> t[i].1 >= t[j].1
  }

  /** Stable sort by count, largest first: `sorted(items, key=count, reverse=True)`. */
  function SortByCount(t: Tally): (r: Tally)
    ensures multiset(r) == multiset(t) && |r| == |t|
  {
    if |t| == 0 then []
    else
      assert t == [t[0]] + t[1..];
      InsertByCount(t[0], SortByCount(t[1..]))
  }

  /** Inserting by count keeps a tally sorted. */
  lemma {:induction false} InsertSorted(e: (string, nat), sorted: Tally)
    requires SortedByCount(sorted)
    ensures SortedByCount(InsertByCount(e, sorted))
    decreases |sorted|
  {
    if |sorted| > 0 && sorted[0].1 > e.1 {
      InsertSorted(e, sorted[1..]);
      var rest := InsertByCount(e, sorted[1..]);
      forall x: (string, nat) | x in multiset(rest) ensures x.1 <= sorted[0].1 {
        assert x in multiset(sorted[1..]) + multiset{e};
        if x in multiset(sorted[1..]) {
          var j :| 0 <= j < |sorted[1..]| && sorted[1..][j] == x;
          assert sorted[j + 1] == x;
        }
      }
      forall j | 0 <= j < |rest| ensures rest[j].1 <= sorted[0].1 {
        assert rest[j] in multiset(rest);
      }
    }
  }

  /** The stable sort by count is sorted. */
  lemma {:induction false} SortSorted(t: Tally)
    ensures SortedByCount(SortByCount(t))
    decreases |t|
  {
    if |t| > 0 {
      SortSorted(t[1..]);
      InsertSorted(t[0], SortByCount(t[1..]));
    }
  }

  /** The entries of `t` with count `c`, in their order in `t`. */
  function WithCount(t: Tally, c: nat): Tally {
    if |t| == 0 then []
    else (if t[0].1 == c then [t[0]] else []) + WithCount(t[1..], c)
  }

  /** Inserting by count puts the new entry before every entry of its own count. */
  lemma {:induction false} InsertStable(e: (string, nat), sorted: Tally, c: nat)
    ensures WithCount(InsertByCount(e, sorted), c) ==
            (if e.1 == c then [e] else []) + WithCount(sorted, c)
    decreases |sorted|
  {
    var r := InsertByCount(e, sorted);
    if |sorted| == 0 {
      assert r == [e] + [];
      WithCountCons(e, [], c);
    } else if sorted[0].1 > e.1 {
      InsertStable(e, sorted[1..], c);
      assert r == [sorted[0]] + InsertByCount(e, sorted[1..]);
      WithCountCons(sorted[0], InsertByCount(e, sorted[1..]), c);
      assert sorted == [sorted[0]] + sorted[1..];
      WithCountCons(sorted[0], sorted[1..], c);
    } else {
      assert r == [e] + sorted;
      WithCountCons(e, sorted, c);
    }
  }

  /** The entries of each count after one more entry in front. */
  lemma WithCountCons(x: (string, nat), t: Tally, c: nat)
    ensures WithCount([x] + t, c) == (if x.1 == c then [x] else []) + WithCount(t, c)
  {
    assert ([x] + t)[1..] == t;
  }

  /** The sort by count is stable: entries of equal count keep the order in
      which the counter first saw their keys. */
  lemma {:induction false} SortStable(t: Tally, c: nat)
    ensures WithCount(SortByCount(t), c) == WithCount(t, c)
    decreases |t|
  {
    if |t| > 0 {
      SortStable(t[1..], c);
      InsertStable(t[0], SortByCount(t[1..]), c);
    }
  }

  /** Keeping a prefix keeps a prefix of the entries of each count. */
  lemma {:induction false} WithCountPrefix(t: Tally, m: nat, c: nat)
    requires m <= |t|
    ensures WithCount(t[..m], c) <= WithCount(t, c)
    decreases |t|
  {
    if m > 0 {
      WithCountPrefix(t[1..], m - 1, c);
      assert t[..m][1..] == t[1..][..m - 1];
    }
  }

  /** Among tied entries, `most_common(n)` keeps the ones the counter saw first:
      the entries it returns with count `c` are the first entries of the
      counter with count `c`, in the counter's order. */
  lemma MostCommonStable(t: Tally, n: nat, c: nat)
    ensures WithCount(MostCommon(t, n), c) <= WithCount(t, c)
  {
    var sorted := SortByCount(t);
    SortStable(t, c);
    WithCountPrefix(sorted, if |t| < n then |t| else n, c);
  }

  /** `Counter.most_common(n)`: the first `n` items of the stable sort by count,
      largest first. */
  function MostCommon(t: Tally, n: nat): (r: Tally)
    ensures |r| == if |t| < n then |t| else n
  {
    var sorted := SortByCount(t);
    sorted[..if |t| < n then |t| else n]
  }

  /** `most_common(n)` returns entries of the counter, sorted by count, and
      every entry it leaves out counts no more than any entry it keeps. */
  lemma MostCommonTop(t: Tally, n: nat)
    ensures var r := MostCommon(t, n);
            SortedByCount(r) &&
            (forall i :: 0 <= i < |r| ==> r[i] in t) &&
            (forall e, i :: e in t && e !in r && 0 <= i < |r| ==> e.1 <= r[i].1)
  {
    var sorted := SortByCount(t);
    var r := MostCommon(t, n);
    SortSorted(t);
    forall i | 0 <= i < |r| ensures r[i] in t {
      assert r[i] == sorted[i];
      assert r[i] in multiset(sorted);
    }
    forall e, i | e in t && e !in r && 0 <= i < |r| ensures e.1 <= r[i].1 {
      assert e in multiset(sorted);
      var j :| 0 <= j < |sorted| && sorted[j] == e;
      assert j >= |r|;
      assert r[i] == sorted[i];
    }
  }

  /** `extract_error_keywords(log_events)`: for each event, each keyword found
      in its lower-cased message is counted once; the ten most common keywords
      are returned with their counts, in `most_common` order. */
  method ExtractErrorKeywords(events: seq<LogEvent>) returns (entries: Tally)
    ensures entries == MostCommon(TallyEvents(events), TopCount)
    ensures |entries| <= TopCount
    ensures forall i :: 0 <= i < |entries| ==>
              entries[i].0 in ErrorKeywords && entries[i].1 == Hits(events, entries[i].0) &&
              1 <= entries[i].1 <= |events|
    ensures forall i, j :: 0 <= i < j < |entries| ==> entries[i].0 != entries[j].0
    ensures SortedByCount(entries)
    ensures forall k, i :: k in ErrorKeywords && k !in Keys(entries) && 0 <= i < |entries| ==>
              Hits(events, k) <= entries[i].1
    ensures |entries| < TopCount ==>
              forall k :: k in ErrorKeywords && Hits(events, k) > 0 ==> k in Keys(entries)
  {
    var counts: Tally := [];
    for e := 0 to |events|
      invariant counts == TallyEvents(events[..e])
    {
      var messageLower := Lower(events[e].message);
      for j := 0 to |ErrorKeywords|
        invariant counts == TallyMessage(TallyEvents(events[..e]), messageLower, ErrorKeywords[..j])
      {
        if Contains(messageLower, ErrorKeywords[j]) {
          counts := Bump(counts, ErrorKeywords[j]);
        }
        assert ErrorKeywords[..j + 1][..j] == ErrorKeywords[..j];
      }
      assert ErrorKeywords[..|ErrorKeywords|] == ErrorKeywords;
      assert events[..e + 1][..e] == events[..e];
    }
    assert events[..|events|] == events;
    entries := MostCommon(counts, TopCount);
    MostCommonEntries(events);
    MostCommonTop(counts, TopCount);
    MostCommonLeavesOutLess(events);
    MostCommonShortIsComplete(events);
    MostCommonDistinct(events);
  }

  /** Every returned entry is a keyword with its number of mentioning events. */
  lemma MostCommonEntries(events: seq<LogEvent>)
    ensures var r := MostCommon(TallyEvents(events), TopCount);
            forall i :: 0 <= i < |r| ==>
              r[i].0 in ErrorKeywords && r[i].1 == Hits(events, r[i].0) && 1 <= r[i].1 <= |events|
  {
    var t := TallyEvents(events);
    var r := MostCommon(t, TopCount);
    TallyEventsCounts(events);
    MostCommonTop(t, TopCount);
    forall i | 0 <= i < |r| ensures r[i].0 in ErrorKeywords && r[i].1 == Hits(events, r[i].0) && r[i].1 >= 1 {
      var j :| 0 <= j < |t| && t[j] == r[i];
      LookupEntry(t, j);
      assert r[i].0 in Keys(t);
    }
  }

  /** A keyword left out is mentioned by no more events than any kept one. */
  lemma MostCommonLeavesOutLess(events: seq<LogEvent>)
    ensures var r := MostCommon(TallyEvents(events), TopCount);
            forall k, i :: k in ErrorKeywords && k !in Keys(r) && 0 <= i < |r| ==> Hits(events, k) <= r[i].1
  {
    var t := TallyEvents(events);
    var r := MostCommon(t, TopCount);
    TallyEventsCounts(events);
    MostCommonTop(t, TopCount);
    forall k, i | k in ErrorKeywords && k !in Keys(r) && 0 <= i < |r| ensures Hits(events, k) <= r[i].1 {
      if k in Keys(t) {
        var j :| 0 <= j < |t| && t[j].0 == k;
        LookupEntry(t, j);
        assert t[j] !in r;
      } else {
        LookupAbsent(t, k);
      }
    }
  }

  /** A well-formed tally holds each entry at most once. */
  lemma {:induction false} WellFormedOnce(t: Tally, x: (string, nat))
    requires WellFormed(t)
    ensures multiset(t)[x] <= 1
    decreases |t|
  {
    if |t| > 0 {
      WellFormedCons(t);
      WellFormedOnce(t[1..], x);
      assert t == [t[0]] + t[1..];
      if x == t[0] {
        assert x !in t[1..];
      }
    }
  }

  /** An element at two positions is counted twice. */
  lemma TwiceCountsTwice(s: Tally, i: nat, j: nat)
    requires i < j < |s| && s[i] == s[j]
    ensures multiset(s)[s[i]] >= 2
  {
    assert s == s[..i] + [s[i]] + s[i + 1..j] + [s[j]] + s[j + 1..];
  }

  /** The returned entries have distinct keys, like the dict they stand for. */
  lemma MostCommonDistinct(events: seq<LogEvent>)
    ensures var r := MostCommon(TallyEvents(events), TopCount);
            forall i, j :: 0 <= i < j < |r| ==> r[i].0 != r[j].0
  {
    var t := TallyEvents(events);
    var sorted := SortByCount(t);
    var r := MostCommon(t, TopCount);
    TallyEventsCounts(events);
    forall i, j | 0 <= i < j < |r| ensures r[i].0 != r[j].0 {
      assert r[i] == sorted[i] && r[j] == sorted[j];
      assert r[i] in multiset(t) && r[j] in multiset(t);
      var a :| 0 <= a < |t| && t[a] == r[i];
      var b :| 0 <= b < |t| && t[b] == r[j];
      if r[i].0 == r[j].0 {
        assert a == b;
        TwiceCountsTwice(sorted, i, j);
        WellFormedOnce(t, r[i]);
        assert false;
      }
    }
  }

  /** Fewer than ten entries means every mentioned keyword is there. */
  lemma MostCommonShortIsComplete(events: seq<LogEvent>)
    ensures var r := MostCommon(TallyEvents(events), TopCount);
            |r| < TopCount ==> forall k :: k in ErrorKeywords && Hits(events, k) > 0 ==> k in Keys(r)
  {
    var t := TallyEvents(events);
    var r := MostCommon(t, TopCount);
    TallyEventsCounts(events);
    if |r| < TopCount {
      forall k | k in ErrorKeywords && Hits(events, k) > 0 ensures k in Keys(r) {
        if k !in Keys(t) {
          LookupAbsent(t, k);
        }
        var j :| 0 <= j < |t| && t[j].0 == k;
        assert r == SortByCount(t);
        assert t[j] in multiset(r);
        var m :| 0 <= m < |r| && r[m] == t[j];
        assert r[m].0 == k;
      }
    }
  }
}
