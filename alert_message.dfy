/**
 * The text of the aggregated alert: a "will expire soon" section with one
 * line per domain in `willExpireSoon`, then a "check failed" section with one
 * line per domain whose consecutive error count reached five. Go visits map
 * entries in no fixed order, so each section is given together with the
 * order in which its domains were visited: any duplicate-free enumeration of
 * the right set of domains.
 */
module AlertMessage {
  import opened Durations
  import opened Decimal
  import opened DomainState

  const ExpiryHeader: string := "HTTPS Certification will expire soon:<br>"
  const FailureHeader: string := "HTTPS Certification check failed:<br>"
  const Title: string := "Certification Error: Fired"
  const Foot: string := "certificate-sentry"

  /** Error counts at or above this are reported. */
  const FailureThreshold: int := 5

  /**
   * A line of the expiry section: the domain after "- ", then the remaining
   * whole days in `%d` form, which read back as that day count.
   */
  function ExpiryLine(domain: string, remaining: int): (line: string)
    ensures |line| > |domain| + 21
    ensures line[..2] == "- " && line[2..2 + |domain|] == domain
    ensures line[2 + |domain|..|domain| + 15] == " (remaining: "
    ensures line[|domain| + 15..|line| - 6] == FormatInt(Days(remaining))
    ensures line[|line| - 6..] == "d)<br>"
    ensures IsDecimalText(line[|domain| + 15..|line| - 6])
    ensures ParseInt(line[|domain| + 15..|line| - 6]) == Days(remaining)
  {
    var days := FormatInt(Days(remaining));
    FormatIntRoundTrip(Days(remaining));
    var line := "- " + domain + " (remaining: " + days + "d)<br>";
    assert line[|domain| + 15..|line| - 6] == days;
    line
  }

  /**
   * A line of the failure section: the domain after "- ", then the error
   * count in `%d` form, which reads back as that count.
   */
  function FailureLine(domain: string, count: int): (line: string)
    ensures |line| > |domain| + 21
    ensures line[..2] == "- " && line[2..2 + |domain|] == domain
    ensures line[2 + |domain|..|domain| + 16] == " (errorCount: "
    ensures line[|domain| + 16..|line| - 5] == FormatInt(count)
    ensures line[|line| - 5..] == ")<br>"
    ensures IsDecimalText(line[|domain| + 16..|line| - 5])
    ensures ParseInt(line[|domain| + 16..|line| - 5]) == count
  {
    var digits := FormatInt(count);
    FormatIntRoundTrip(count);
    var line := "- " + domain + " (errorCount: " + digits + ")<br>";
    assert line[|domain| + 16..|line| - 5] == digits;
    line
  }

  /** The domains the failure section reports. */
  function FailingDomains(errorCounts: map<string, int>): (failing: set<string>)
    ensures failing <= errorCounts.Keys
    ensures forall d :: d in failing <==> Count(errorCounts, d) >= FailureThreshold
  {
    set d | d in errorCounts && errorCounts[d] >= FailureThreshold
  }

  /** `order` lists each element of `keys` exactly once. */
  ghost predicate Enumerates(order: seq<string>, keys: set<string>)
  {
    && (forall i, j :: 0 <= i < j < |order| ==> order[i] != order[j])
    && (forall d :: d in order <==> d in keys)
  }

  /** Part way through visiting a map: `order` lists, once each, the members of `keys` no longer pending. */
  ghost predicate Visited(order: seq<string>, keys: set<string>, pending: set<string>)
  {
    && (forall i, j :: 0 <= i < j < |order| ==> order[i] != order[j])
    && (forall d :: d in order <==> d in keys && d !in pending)
  }

  lemma VisitStart(keys: set<string>, pending: set<string>)
    requires keys <= pending
    ensures Visited([], keys, pending)
  {
  }

  /** Visiting a pending member of `keys` appends it. */
  lemma VisitAdd(order: seq<string>, keys: set<string>, pending: set<string>, d: string)
    requires Visited(order, keys, pending) && d in keys && d in pending
    ensures Visited(order + [d], keys, pending - {d})
  {
    assert d !in order;
  }

  /** Visiting a pending non-member leaves the order alone. */
  lemma VisitSkip(order: seq<string>, keys: set<string>, pending: set<string>, d: string)
    requires Visited(order, keys, pending) && d !in keys
    ensures Visited(order, keys, pending - {d})
  {
  }

  lemma VisitEnd(order: seq<string>, keys: set<string>)
    requires Visited(order, keys, {})
    ensures Enumerates(order, keys)
  {
  }

  /** The concatenation `+=` builds. */
  function Join(lines: seq<string>): string
  {
    if lines == [] then "" else Join(lines[..|lines| - 1]) + lines[|lines| - 1]
  }

  /** One rendered line per visited domain, in visiting order. */
  function LinesOf(m: map<string, int>, order: seq<string>, line: (string, int) -> string): (lines: seq<string>)
    requires forall d :: d in order ==> d in m
    ensures |lines| == |order|
    ensures forall i :: 0 <= i < |order| ==> lines[i] == line(order[i], m[order[i]])
  {
    if order == [] then []
    else
      var n := |order| - 1;
      assert forall d :: d in order[..n] ==> d in order;
      LinesOf(m, order[..n], line) + [line(order[n], m[order[n]])]
  }

  function ExpiryLines(willExpireSoon: map<string, int>, order: seq<string>): (lines: seq<string>)
    requires forall d :: d in order ==> d in willExpireSoon
  {
    LinesOf(willExpireSoon, order, ExpiryLine)
  }

  function FailureLines(errorCounts: map<string, int>, order: seq<string>): (lines: seq<string>)
    requires forall d :: d in order ==> d in errorCounts
  {
    LinesOf(errorCounts, order, FailureLine)
  }

  /** Visiting one more domain appends its line to the text. */
  lemma JoinLinesSnoc(m: map<string, int>, order: seq<string>, d: string, line: (string, int) -> string)
    requires forall k :: k in order ==> k in m
    requires d in m
    ensures forall k :: k in order + [d] ==> k in m
    ensures Join(LinesOf(m, order + [d], line)) == Join(LinesOf(m, order, line)) + line(d, m[d])
  {
    assert (order + [d])[..|order|] == order;
    var lines := LinesOf(m, order + [d], line);
    assert lines[..|lines| - 1] == LinesOf(m, order, line);
  }

  /** Before any domain is visited the text is the header alone. */
  lemma StartSection(m: map<string, int>, line: (string, int) -> string, header: string)
    ensures header == header + Join(LinesOf(m, [], line))
  {
    assert LinesOf(m, [], line) == [];
    assert header + "" == header;
  }

  /** Appending the next visited domain's line to a header and the lines so far. */
  lemma ExtendSection(m: map<string, int>, order: seq<string>, d: string, line: (string, int) -> string,
                      header: string, text: string)
    requires forall k :: k in order ==> k in m
    requires d in m
    requires text == header + Join(LinesOf(m, order, line))
    ensures forall k :: k in order + [d] ==> k in m
    ensures text + line(d, m[d]) == header + Join(LinesOf(m, order + [d], line))
  {
    JoinLinesSnoc(m, order, d, line);
    var body := Join(LinesOf(m, order, line));
    assert (header + body) + line(d, m[d]) == header + (body + line(d, m[d]));
  }

  /** The header and the lines, or nothing when `willExpireSoon` is empty. */
  function ExpirySection(willExpireSoon: map<string, int>, order: seq<string>): (s: string)
    requires forall d :: d in order ==> d in willExpireSoon
    ensures s == "" <==> |willExpireSoon| == 0
    ensures s != "" ==> ExpiryHeader <= s
  {
    if |willExpireSoon| > 0 then ExpiryHeader + Join(ExpiryLines(willExpireSoon, order)) else ""
  }

  /** The header and the lines, or nothing when no line was written. */
  function FailureSection(errorCounts: map<string, int>, order: seq<string>): (s: string)
    requires forall d :: d in order ==> d in errorCounts
    ensures s == "" <==> order == []
    ensures s != "" ==> FailureHeader <= s
  {
    JoinEmpty(FailureLines(errorCounts, order));
    var body := Join(FailureLines(errorCounts, order));
    if body != "" then FailureHeader + body else ""
  }

  /** The whole alert content: the expiry section first, then the failure section. */
  function Content(willExpireSoon: map<string, int>, errorCounts: map<string, int>,
                   expiryOrder: seq<string>, failureOrder: seq<string>): (c: string)
    requires forall d :: d in expiryOrder ==> d in willExpireSoon
    requires forall d :: d in failureOrder ==> d in errorCounts
    ensures c == "" <==> |willExpireSoon| == 0 && failureOrder == []
    ensures |willExpireSoon| > 0 ==> ExpiryHeader <= c
    ensures |willExpireSoon| == 0 && failureOrder != [] ==> FailureHeader <= c
  {
    ExpirySection(willExpireSoon, expiryOrder) + FailureSection(errorCounts, failureOrder)
  }

  /** An alert is warranted when some domain is near expiry or some count reached the threshold. */
  predicate Warranted(t: Tracker): (w: bool)
    ensures w <==> (exists d :: d in t.willExpireSoon) || (exists d :: Count(t.errorCounts, d) >= FailureThreshold)
  {
    var w := |t.willExpireSoon| > 0 || FailingDomains(t.errorCounts) != {};
    assert w ==> (exists d :: d in t.willExpireSoon) || (exists d :: Count(t.errorCounts, d) >= FailureThreshold) by {
      if |t.willExpireSoon| > 0 {
        var d :| d in t.willExpireSoon;
      } else if FailingDomains(t.errorCounts) != {} {
        var d :| d in FailingDomains(t.errorCounts);
      }
    }
    w
  }

  lemma {:induction false} JoinEmpty(lines: seq<string>)
    requires forall i :: 0 <= i < |lines| ==> lines[i] != ""
    ensures Join(lines) == "" <==> lines == []
  {
    if lines != [] {
      var n := |lines| - 1;
      assert |Join(lines)| >= |lines[n]| > 0;
    }
  }

  /** The failure header appears exactly when some domain is reported as failing. */
  lemma FailureSectionPresent(errorCounts: map<string, int>, order: seq<string>)
    requires Enumerates(order, FailingDomains(errorCounts))
    ensures FailureSection(errorCounts, order) != "" <==> FailingDomains(errorCounts) != {}
    ensures FailureSection(errorCounts, order) != "" ==>
      FailureSection(errorCounts, order) == FailureHeader + Join(FailureLines(errorCounts, order))
  {
    var lines := FailureLines(errorCounts, order);
    JoinEmpty(lines);
    if FailingDomains(errorCounts) != {} {
      var d :| d in FailingDomains(errorCounts);
      assert d in order;
    }
  }

  /**
   * The alert text is non-empty exactly when an alert is warranted, so the
   * message is dispatched in exactly those cycles.
   */
  lemma ContentIffWarranted(t: Tracker, expiryOrder: seq<string>, failureOrder: seq<string>)
    requires Enumerates(expiryOrder, t.willExpireSoon.Keys)
    requires Enumerates(failureOrder, FailingDomains(t.errorCounts))
    ensures Content(t.willExpireSoon, t.errorCounts, expiryOrder, failureOrder) != "" <==> Warranted(t)
  {
    FailureSectionPresent(t.errorCounts, failureOrder);
  }

  /** A duplicate-free sequence holds each element of its set once. */
  lemma {:induction false} DistinctMultiset(order: seq<string>)
    requires forall i, j :: 0 <= i < j < |order| ==> order[i] != order[j]
    ensures multiset(order) == multiset(set d | d in order)
  {
    if order != [] {
      var n := |order| - 1;
      var prefix := order[..n];
      assert order == prefix + [order[n]];
      DistinctMultiset(prefix);
      assert order[n] !in prefix;
      assert (set d | d in order) == (set d | d in prefix) + {order[n]};
    }
  }

  /** Two enumerations of the same set are permutations of each other. */
  lemma EnumerationsPermute(o1: seq<string>, o2: seq<string>, keys: set<string>)
    requires Enumerates(o1, keys) && Enumerates(o2, keys)
    ensures multiset(o1) == multiset(o2)
  {
    DistinctMultiset(o1);
    DistinctMultiset(o2);
    assert (set d | d in o1) == (set d | d in o2);
  }
  lemma LinesOfConcat(m: map<string, int>, a: seq<string>, b: seq<string>, line: (string, int) -> string)
    requires forall d :: d in a + b ==> d in m
    ensures LinesOf(m, a + b, line) == LinesOf(m, a, line) + LinesOf(m, b, line)
  {
    var whole, left, right := LinesOf(m, a + b, line), LinesOf(m, a, line), LinesOf(m, b, line);
    forall i | 0 <= i < |whole| ensures whole[i] == (left + right)[i] {
      if i >= |a| {
        assert (a + b)[i] == b[i - |a|];
      }
    }
  }

  lemma MultisetRemove(s: seq<string>, j: nat)
    requires j < |s|
    ensures multiset(s[..j] + s[j + 1..]) == multiset(s) - multiset{s[j]}
  {
    assert s == s[..j] + [s[j]] + s[j + 1..];
  }

  /** Taking the line of the j-th domain out of the list of lines. */
  lemma LinesWithout(m: map<string, int>, s: seq<string>, j: nat, line: (string, int) -> string)
    requires j < |s| && forall d :: d in s ==> d in m
    ensures forall d :: d in s[..j] + s[j + 1..] ==> d in m
    ensures multiset(LinesOf(m, s, line)) == multiset(LinesOf(m, s[..j] + s[j + 1..], line)) + multiset{line(s[j], m[s[j]])}
  {
    assert s == s[..j] + [s[j]] + s[j + 1..];
    LinesOfConcat(m, s[..j] + [s[j]], s[j + 1..], line);
    LinesOfConcat(m, s[..j], [s[j]], line);
    LinesOfConcat(m, s[..j], s[j + 1..], line);
  }

  /** Visiting the same domains in another order yields the same lines, permuted. */
  lemma {:induction false} LinesPermute(m: map<string, int>, o1: seq<string>, o2: seq<string>, line: (string, int) -> string)
    requires forall d :: d in o1 ==> d in m
    requires multiset(o1) == multiset(o2)
    ensures forall d :: d in o2 ==> d in m
    ensures multiset(LinesOf(m, o1, line)) == multiset(LinesOf(m, o2, line))
    decreases |o1|
  {
    assert forall d :: d in o2 ==> d in multiset(o1);
    if o1 != [] {
      var n := |o1| - 1;
      var x := o1[n];
      assert x in multiset(o2);
      var j :| 0 <= j < |o2| && o2[j] == x;
      var rest := o2[..j] + o2[j + 1..];
      MultisetRemove(o1, n);
      MultisetRemove(o2, j);
      assert o1[..n] + o1[n + 1..] == o1[..n];
      LinesPermute(m, o1[..n], rest, line);
      LinesWithout(m, o1, n, line);
      LinesWithout(m, o2, j, line);
    }
  }

  /** A duplicate-free enumeration of a set is as long as the set is large. */
  lemma EnumerationLength(order: seq<string>, keys: set<string>)
    requires Enumerates(order, keys)
    ensures |order| == |keys|
  {
    DistinctMultiset(order);
    assert (set d | d in order) == keys;
    assert |multiset(order)| == |order|;
  }

  /**
   * The expiry section holds exactly one line per domain in `willExpireSoon`,
   * whatever order the map was visited in: as many lines as domains, and the
   * same multiset of lines for every enumeration.
   */
  lemma ExpiryLinesIgnoreVisitOrder(willExpireSoon: map<string, int>, o1: seq<string>, o2: seq<string>)
    requires Enumerates(o1, willExpireSoon.Keys) && Enumerates(o2, willExpireSoon.Keys)
    ensures |ExpiryLines(willExpireSoon, o1)| == |willExpireSoon|
    ensures multiset(ExpiryLines(willExpireSoon, o1)) == multiset(ExpiryLines(willExpireSoon, o2))
  {
    EnumerationLength(o1, willExpireSoon.Keys);
    EnumerationsPermute(o1, o2, willExpireSoon.Keys);
    LinesPermute(willExpireSoon, o1, o2, ExpiryLine);
  }

  /**
   * The failure section holds exactly one line per domain whose count reached
   * the threshold, whatever order the map was visited in.
   */
  lemma FailureLinesIgnoreVisitOrder(errorCounts: map<string, int>, o1: seq<string>, o2: seq<string>)
    requires Enumerates(o1, FailingDomains(errorCounts)) && Enumerates(o2, FailingDomains(errorCounts))
    ensures |FailureLines(errorCounts, o1)| == |FailingDomains(errorCounts)|
    ensures multiset(FailureLines(errorCounts, o1)) == multiset(FailureLines(errorCounts, o2))
  {
    EnumerationLength(o1, FailingDomains(errorCounts));
    EnumerationsPermute(o1, o2, FailingDomains(errorCounts));
    LinesPermute(errorCounts, o1, o2, FailureLine);
  }
  /**
   * Starting from no recorded failures, a domain listed once is reported as
   * failing after exactly five consecutive failed cycles, and not after four.
   */
  lemma ReportedFromFifthFailure(t: Tracker, domains: seq<string>, rounds: seq<seq<Probe>>, threshold: int, i: nat)
    requires i < |domains| && forall j :: 0 <= j < |domains| && j != i ==> domains[j] != domains[i]
    requires forall k :: 0 <= k < |rounds| ==> |rounds[k]| == |domains|
    requires forall k, j :: 0 <= k < |rounds| && 0 <= j < |domains| ==> !Abandons(rounds[k][j])
    requires forall k :: 0 <= k < |rounds| ==> rounds[k][i].ProbeFailed?
    requires Count(t.errorCounts, domains[i]) == 0
    ensures domains[i] in FailingDomains(Cycles(t, domains, rounds, threshold).errorCounts) <==> |rounds| >= FailureThreshold
  {
    FailureStreak(t, domains, rounds, threshold, i);
  }

  /**
   * The worked example: with a 7-day threshold, a.example expiring in 5 days
   * and b.example failing once leave a.example near expiry and b.example
   * with one failure.
   */
  lemma TwoDomainScenario()
    ensures var pass := Sweep(Tracker(map[], map[]), ["a.example", "b.example"], [Probed(5 * Day), ProbeFailed(false)], 7 * Day);
      && pass.completed
      && pass.state == Tracker(map["a.example" := 5 * Day], map["a.example" := 0, "b.example" := 1])
      && Warranted(pass.state)
  {
    var domains: seq<string> := ["a.example", "b.example"];
    var outcomes := [Probed(5 * Day), ProbeFailed(false)];
    assert domains[..1] == ["a.example"] && outcomes[..1] == [Probed(5 * Day)];
    assert domains[..1][..0] == [] && outcomes[..1][..0] == [];
  }

  /** A remaining lifetime of exactly five days is shown as "5". */
  lemma FiveDaysShowAsFive()
    ensures FormatInt(Days(5 * Day)) == "5"
  {
    assert NatDigits(5) == ['5'];
  }

  /** A one-element set has a single enumeration. */
  lemma SingletonEnumeration(order: seq<string>, x: string)
    requires Enumerates(order, {x})
    ensures order == [x]
  {
    EnumerationLength(order, {x});
    assert order[0] in {x};
  }

  /** The empty set has only the empty enumeration. */
  lemma EmptyEnumeration(order: seq<string>)
    requires Enumerates(order, {})
    ensures order == []
  {
    EnumerationLength(order, {});
  }

  /**
   * Its alert, in whatever order the maps are visited, is the expiry header
   * and a.example's line, which shows 5 days; there is no failure section.
   */
  lemma TwoDomainScenarioMessage(expiryOrder: seq<string>, failureOrder: seq<string>)
    requires Enumerates(expiryOrder, map["a.example" := 5 * Day].Keys)
    requires Enumerates(failureOrder, FailingDomains(map["a.example" := 0, "b.example" := 1]))
    ensures Content(map["a.example" := 5 * Day], map["a.example" := 0, "b.example" := 1], expiryOrder, failureOrder)
         == ExpiryHeader + ExpiryLine("a.example", 5 * Day)
    ensures ExpiryLine("a.example", 5 * Day) == "- " + "a.example" + " (remaining: " + "5" + "d)<br>"
  {
    var near, errors := map["a.example" := 5 * Day], map["a.example" := 0, "b.example" := 1];
    assert near.Keys == {"a.example"};
    assert FailingDomains(errors) == {} by {
      forall d | d in errors ensures errors[d] < FailureThreshold {
      }
    }
    SingletonEnumeration(expiryOrder, "a.example");
    EmptyEnumeration(failureOrder);
    var line := ExpiryLine("a.example", 5 * Day);
    FiveDaysShowAsFive();
    assert ExpirySection(near, ["a.example"]) == ExpiryHeader + line by {
      assert ExpiryLines(near, ["a.example"]) == [line];
      assert Join([line]) == line;
    }
    assert FailureSection(errors, []) == "" by {
      assert FailureLines(errors, []) == [];
    }
    var expiry := ExpiryHeader + line;
    assert expiry + "" == expiry;
  }

  /**
   * Repeating an all-success cycle repeats its alert: it is warranted both
   * times or neither, and each section has the same lines, though Go may
   * visit the maps in a different order the second time, so the lines may
   * appear in a different order.
   */
  lemma RepeatedHealthyCycleRepeatsAlert(t: Tracker, domains: seq<string>, outcomes: seq<Probe>, threshold: int,
                                         eo1: seq<string>, fo1: seq<string>, eo2: seq<string>, fo2: seq<string>)
    requires |domains| == |outcomes|
    requires forall j :: 0 <= j < |outcomes| ==> outcomes[j].Probed?
    requires var once := Sweep(t, domains, outcomes, threshold).state;
      Enumerates(eo1, once.willExpireSoon.Keys) && Enumerates(fo1, FailingDomains(once.errorCounts))
    requires var twice := Sweep(Sweep(t, domains, outcomes, threshold).state, domains, outcomes, threshold).state;
      Enumerates(eo2, twice.willExpireSoon.Keys) && Enumerates(fo2, FailingDomains(twice.errorCounts))
    ensures var once := Sweep(t, domains, outcomes, threshold).state;
      var twice := Sweep(once, domains, outcomes, threshold).state;
      && (Warranted(once) <==> Warranted(twice))
      && multiset(ExpiryLines(once.willExpireSoon, eo1)) == multiset(ExpiryLines(twice.willExpireSoon, eo2))
      && multiset(FailureLines(once.errorCounts, fo1)) == multiset(FailureLines(twice.errorCounts, fo2))
  {
    var once := Sweep(t, domains, outcomes, threshold).state;
    RepeatedHealthyCycleIsIdempotent(t, domains, outcomes, threshold);
    ExpiryLinesIgnoreVisitOrder(once.willExpireSoon, eo1, eo2);
    FailureLinesIgnoreVisitOrder(once.errorCounts, fo1, fo2);
  }
}
