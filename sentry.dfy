/**
 * The checker process: `App` owns the two maps for the whole process
 * lifetime and `CheckOnce` runs one cycle over the configured domains,
 * updating the maps in place, building at most one alert and dispatching it
 * at most once. The notifier is opaque; it records what it was asked to send.
 */
module Sentry {
  import opened Wrappers
  import opened DomainState
  import opened AlertMessage
  import opened Configuration

  datatype TemplateData = TemplateData(title: string, content: string, foot: string)

  /**
   * The chat webhook notifier. Templating and the HTTP POST are outside this
   * model: the error the transport would report is given by the caller, and
   * every call is recorded in `sent`.
   */
  class FeishuRobot {
    ghost var sent: seq<TemplateData>

    constructor ()
      ensures sent == []
    {
      sent := [];
    }

    method SendWarnMessage(data: TemplateData, transportError: Option<string>) returns (err: Option<string>)
      modifies this
      ensures sent == old(sent) + [data]
      ensures err == transportError
    {
      sent := sent + [data];
      err := transportError;
    }
  }

  class App {
    const cfg: Config
    const sender: FeishuRobot
    /** domain to the remaining lifetime seen at its last successful probe, while near expiry */
    var willExpireSoon: map<string, int>
    /** domain to its number of consecutive failed probes */
    var continuousErrorCounts: map<string, int>

    /** `NewApp`: both maps start empty. */
    constructor (cfg: Config, sender: FeishuRobot)
      ensures this.cfg == cfg && this.sender == sender
      ensures willExpireSoon == map[] && continuousErrorCounts == map[]
    {
      this.cfg := cfg;
      this.sender := sender;
      willExpireSoon := map[];
      continuousErrorCounts := map[];
    }

    function State(): Tracker
      reads this
    {
      Tracker(willExpireSoon, continuousErrorCounts)
    }

    /**
     * The "will expire soon" section, built by visiting `willExpireSoon` in
     * an unspecified order (returned as `order`): the header and one line per
     * near-expiry domain, or nothing when there is none.
     */
    method ExpiryMessage() returns (message: string, ghost order: seq<string>)
      ensures Enumerates(order, willExpireSoon.Keys)
      ensures message == ExpirySection(willExpireSoon, order)
      ensures message == "" <==> |willExpireSoon| == 0
      ensures message != "" ==> ExpiryHeader <= message
    {
      message, order := "", [];
      if |willExpireSoon| > 0 {
        message := ExpiryHeader;
        var pending := willExpireSoon.Keys;
        VisitStart(willExpireSoon.Keys, pending);
        StartSection(willExpireSoon, ExpiryLine, ExpiryHeader);
        while pending != {}
          invariant pending <= willExpireSoon.Keys
          invariant Visited(order, willExpireSoon.Keys, pending)
          invariant message == ExpiryHeader + Join(ExpiryLines(willExpireSoon, order))
          decreases pending
        {
          var domain :| domain in pending;
          VisitAdd(order, willExpireSoon.Keys, pending, domain);
          ExtendSection(willExpireSoon, order, domain, ExpiryLine, ExpiryHeader, message);
          message := message + ExpiryLine(domain, willExpireSoon[domain]);
          order := order + [domain];
          pending := pending - {domain};
        }
      }
      VisitEnd(order, willExpireSoon.Keys);
    }

    /**
     * The "check failed" section, built by visiting `continuousErrorCounts`
     * in an unspecified order: one line per domain whose count reached the
     * threshold, in the visiting order `order`, under a header that is added
     * only when some line was written.
     */
    method FailureMessage() returns (message: string, ghost order: seq<string>)
      ensures Enumerates(order, FailingDomains(continuousErrorCounts))
      ensures message == FailureSection(continuousErrorCounts, order)
      ensures message == "" <==> FailingDomains(continuousErrorCounts) == {}
      ensures message != "" ==> FailureHeader <= message
    {
      message, order := "", [];
      ghost var failing := FailingDomains(continuousErrorCounts);
      if |continuousErrorCounts| > 0 {
        var pending := continuousErrorCounts.Keys;
        VisitStart(failing, pending);
        while pending != {}
          invariant pending <= continuousErrorCounts.Keys
          invariant Visited(order, failing, pending)
          invariant message == Join(FailureLines(continuousErrorCounts, order))
          decreases pending
        {
          var domain :| domain in pending;
          var errorCount := continuousErrorCounts[domain];
          if errorCount >= FailureThreshold {
            VisitAdd(order, failing, pending, domain);
            JoinLinesSnoc(continuousErrorCounts, order, domain, FailureLine);
            message := message + FailureLine(domain, errorCount);
            order := order + [domain];
          } else {
            VisitSkip(order, failing, pending, domain);
          }
          pending := pending - {domain};
        }
        if message != "" {
          message := FailureHeader + message;
        }
      }
      VisitEnd(order, failing);
      FailureSectionPresent(continuousErrorCounts, order);
    }

    /**
     * One cycle. `outcomes[i]` is what probing `cfg.domains[i]` produced and
     * `transportError` what the notifier would report. The maps end as
     * `Sweep` says. An abandoned cycle sends nothing. A completed cycle sends
     * exactly one message when an alert is warranted and none otherwise; its
     * content lists the domains in the order the maps were visited
     * (`expiryOrder`, `failureOrder`). The transport error changes nothing.
     */
    method CheckOnce(outcomes: seq<Probe>, transportError: Option<string>)
      returns (ghost expiryOrder: seq<string>, ghost failureOrder: seq<string>)
      requires |outcomes| == |cfg.domains|
      modifies this, sender
      ensures var pass := Sweep(old(State()), cfg.domains, outcomes, cfg.beforeExpired);
        && State() == pass.state
        && (!pass.completed ==> sender.sent == old(sender.sent))
        && (pass.completed ==>
              && Enumerates(expiryOrder, willExpireSoon.Keys)
              && Enumerates(failureOrder, FailingDomains(continuousErrorCounts))
              && sender.sent == old(sender.sent) +
                   if Warranted(State())
                   then [TemplateData(Title, Content(willExpireSoon, continuousErrorCounts, expiryOrder, failureOrder), Foot)]
                   else [])
    {
      expiryOrder, failureOrder := [], [];
      var domains := cfg.domains;
      var threshold := cfg.beforeExpired;
      ghost var start := State();
      for i := 0 to |domains|
        invariant Sweep(start, domains[..i], outcomes[..i], threshold) == Pass(State(), true)
        invariant sender.sent == old(sender.sent)
      {
        SweepNext(start, domains, outcomes, threshold, i);
        ghost var before := State();
        var domain := domains[i];
        var outcome := outcomes[i];
        if outcome.ProbeFailed? {
          if outcome.contextDone {
            AbandonedIsFinal(start, domains, outcomes, threshold, i + 1);
            return;
          }
          continuousErrorCounts := continuousErrorCounts[domain := Count(continuousErrorCounts, domain) + 1];
          assert State() == Step(before, domain, outcome, threshold);
          continue;
        }

        // Reset error count
        continuousErrorCounts := continuousErrorCounts[domain := 0];

        var lastTime := outcome.remaining;
        if lastTime > threshold {
          // Healthy: drop it from the alert map
          willExpireSoon := willExpireSoon - {domain};
          assert State() == Step(before, domain, outcome, threshold);
          continue;
        }

        willExpireSoon := willExpireSoon[domain := lastTime];
        assert State() == Step(before, domain, outcome, threshold);
      }
      assert domains[..|domains|] == domains && outcomes[..|outcomes|] == outcomes;

      var message, errorMessage;
      message, expiryOrder := ExpiryMessage();
      errorMessage, failureOrder := FailureMessage();
      message := message + errorMessage;
      assert message == Content(willExpireSoon, continuousErrorCounts, expiryOrder, failureOrder);
      ContentIffWarranted(State(), expiryOrder, failureOrder);

      if message != "" {
        var err := sender.SendWarnMessage(TemplateData(Title, message, Foot), transportError);
        if err.Some? {
          // The failure is only logged.
        }
      }
    }
  }
}
