/** The known-proxy set (services/proxyService.js): a module-level Set that
    updateProxyList grows from the text of every proxy-list feed it could
    fetch. The fetches themselves are inputs: one Option<string> per source,
    in the order of proxySources, None for a source whose request failed or
    timed out. */
module ProxyService {
  import opened Js
  import opened Proxy

  /** The entries one line contributes: its cleaned form, if any. */
  function LineEntries(line: string): set<string>
  {
    var cleaned := CleanProxyLine(Some(line));
    if cleaned.Some? then {cleaned.value} else {}
  }

  /** The union of f over xs, gathered left to right as the loops do. */
  function Gather<T>(xs: seq<T>, f: T -> set<string>): set<string>
  {
    if xs == [] then {} else Gather(xs[..|xs| - 1], f) + f(xs[|xs| - 1])
  }

  lemma {:induction false} GatherFrom<T>(xs: seq<T>, f: T -> set<string>, p: string)
    ensures p in Gather(xs, f) <==> exists i | 0 <= i < |xs| :: p in f(xs[i])
  {
    if xs != [] {
      var init := xs[..|xs| - 1];
      GatherFrom(init, f, p);
      if p in Gather(init, f) {
        var i :| 0 <= i < |init| && p in f(init[i]);
        assert xs[i] == init[i];
      }
      if exists i | 0 <= i < |xs| :: p in f(xs[i]) {
        var i :| 0 <= i < |xs| && p in f(xs[i]);
        if i < |init| {
          assert init[i] == xs[i];
        }
      }
    }
  }

  lemma GatherStep<T>(xs: seq<T>, i: nat, f: T -> set<string>)
    requires i < |xs|
    ensures Gather(xs[..i + 1], f) == Gather(xs[..i], f) + f(xs[i])
  {
    assert xs[..i + 1][..i] == xs[..i];
  }

  lemma {:induction false} GatherAppend<T>(a: seq<T>, b: seq<T>, f: T -> set<string>)
    ensures Gather(a + b, f) == Gather(a, f) + Gather(b, f)
    decreases |b|
  {
    if b == [] {
      assert a + b == a;
    } else {
      assert (a + b)[..|a + b| - 1] == a + b[..|b| - 1];
      GatherAppend(a, b[..|b| - 1], f);
    }
  }

  /** Two levels of gathering: p is gathered exactly when some element of
      some xs[i]'s sub-sequence contributes it. */
  lemma GatherNested<T, U>(xs: seq<T>, sub: T -> seq<U>, f: U -> set<string>,
                           g: T -> set<string>, p: string)
    requires forall x :: g(x) == Gather(sub(x), f)
    ensures p in Gather(xs, g) <==>
              exists i, j | 0 <= i < |xs| && 0 <= j < |sub(xs[i])| :: p in f(sub(xs[i])[j])
  {
    GatherFrom(xs, g, p);
    if p in Gather(xs, g) {
      var i :| 0 <= i < |xs| && p in g(xs[i]);
      GatherFrom(sub(xs[i]), f, p);
    }
    if exists i, j | 0 <= i < |xs| && 0 <= j < |sub(xs[i])| :: p in f(sub(xs[i])[j]) {
      var i, j :| 0 <= i < |xs| && 0 <= j < |sub(xs[i])| && p in f(sub(xs[i])[j]);
      GatherFrom(sub(xs[i]), f, p);
    }
  }

  /** The lines of one response: none for a failed source, otherwise its
      text split on "\n". */
  function Lines(response: Option<string>): seq<string>
  {
    if response.Some? then Split(response.value, '\n') else []
  }

  /** The entries one response contributes. */
  function ResponseEntries(response: Option<string>): set<string>
  {
    Gather(Lines(response), LineEntries)
  }

  /** The entries of a list of source responses. */
  function Harvest(responses: seq<Option<string>>): set<string>
  {
    Gather(responses, ResponseEntries)
  }

  /** A line contributes p exactly when it cleans to p. */
  lemma LineEntriesFrom(line: string, p: string)
    ensures p in LineEntries(line) <==> CleanProxyLine(Some(line)) == Some(p)
  {
  }

  /** Every entry of the harvest comes from some line of some response that
      arrived; and every entry of such a line is in the harvest. */
  lemma HarvestOrigin(responses: seq<Option<string>>, p: string)
    ensures p in Harvest(responses) <==>
              exists i, j | 0 <= i < |responses| && 0 <= j < |Lines(responses[i])| ::
                p in LineEntries(Lines(responses[i])[j])
  {
    GatherNested(responses, Lines, LineEntries, ResponseEntries, p);
  }

  /** A failed source is skipped and the sources after it still count: the
      harvest is that of the same list without it. */
  lemma FailedSourceSkipped(a: seq<Option<string>>, b: seq<Option<string>>)
    ensures Harvest(a + [None] + b) == Harvest(a + b)
  {
    GatherAppend(a + [None], b, ResponseEntries);
    GatherAppend(a, b, ResponseEntries);
    GatherAppend(a, [None], ResponseEntries);
    var failed: seq<Option<string>> := [None];
    assert Gather(failed, ResponseEntries) == {} by {
      assert failed[..0] == [];
    }
  }

  /** Every entry of the harvest has a ':' in it: it is a host:port string. */
  lemma HarvestHasPorts(responses: seq<Option<string>>)
    ensures forall p | p in Harvest(responses) :: ':' in p
  {
    forall p | p in Harvest(responses) ensures ':' in p {
      HarvestOrigin(responses, p);
      var i, j :| 0 <= i < |responses| && 0 <= j < |Lines(responses[i])| &&
         p in LineEntries(Lines(responses[i])[j]);
      LineEntriesFrom(Lines(responses[i])[j], p);
    }
  }

  /** The shared known-proxy set. */
  class KnownProxies {
    var entries: set<string>

    /** Every entry is a cleaned line, so it contains ':'. */
    ghost predicate Valid()
      reads this
    {
      forall p | p in entries :: ':' in p
    }

    /** `new Set()` at module load. */
    constructor ()
      ensures Valid() && entries == {}
    {
      entries := {};
    }

    /** updateProxyList: for each source in turn, a failed fetch is skipped;
        otherwise its text is split on "\n" and every line that cleans to an
        entry is added. Nothing is ever removed. */
    method UpdateProxyList(responses: seq<Option<string>>)
      requires Valid()
      modifies this
      ensures Valid()
      ensures entries == old(entries) + Harvest(responses)
    {
      for s := 0 to |responses|
        invariant entries == old(entries) + Harvest(responses[..s])
      {
        GatherStep(responses, s, ResponseEntries);
        match responses[s]
        case None =>
          assert ResponseEntries(responses[s]) == {};
        case Some(body) =>
          var lines := Split(body, '\n');
          assert lines == Lines(responses[s]);
          AddLines(lines);
      }
      assert responses[..|responses|] == responses;
      HarvestHasPorts(responses);
    }

    /** The inner loop of updateProxyList over the lines of one response. */
    method AddLines(lines: seq<string>)
      modifies this
      ensures entries == old(entries) + Gather(lines, LineEntries)
    {
      for j := 0 to |lines|
        invariant entries == old(entries) + Gather(lines[..j], LineEntries)
      {
        GatherStep(lines, j, LineEntries);
        var cleaned := CleanProxyLine(Some(lines[j]));
        if Truthy(cleaned) {
          entries := entries + {cleaned.value};
        }
      }
      assert lines[..|lines|] == lines;
    }
  }

  /** Two refresh runs, one over a and the next over b, add what one run
      over the sources of both would add. */
  lemma UpdatesCompose(a: seq<Option<string>>, b: seq<Option<string>>)
    ensures Harvest(a + b) == Harvest(a) + Harvest(b)
  {
    GatherAppend(a, b, ResponseEntries);
  }

  /** Feeds that answer the same twice in one run add nothing the first
      time did not: the harvest of the repeated list is the harvest. */
  lemma UpdateIdempotent(responses: seq<Option<string>>)
    ensures Harvest(responses + responses) == Harvest(responses)
  {
    UpdatesCompose(responses, responses);
  }
}
