/** The index page of the glossary generator (makeIndexHTML): one pass over the
    queue of terms, in which each term is taken from the front, its page and its
    index line are written, and it is put back at the end. */
module Index {
  import opened Outcomes
  import opened Scanner
  import opened Rewriter

  /** The index line for one term, as the program writes it (the link target
      is not quoted). */
  function IndexEntry(t: string): string
  {
    "<li><a href = " + t + ".html>" + t + "</a></li>"
  }

  /** The index line names its term's page: the link target is the term with
      ".html" appended, right after the fixed opening. */
  lemma IndexEntryNamesPage(t: string)
    ensures |IndexEntry(t)| == 2 * |t| + 29
    ensures IndexEntry(t)[14..14 + |t| + 5] == t + ".html"
  {
    var e := IndexEntry(t);
    assert e == "<li><a href = " + (t + ".html") + (">" + t + "</a></li>");
  }

  /** Different terms get different index lines. */
  lemma IndexEntryInjective(a: string, b: string)
    requires IndexEntry(a) == IndexEntry(b)
    ensures a == b
  {
    IndexEntryNamesPage(a);
    IndexEntryNamesPage(b);
    assert a == IndexEntry(a)[14..14 + |a| + 5][..|a|];
    assert b == IndexEntry(b)[14..14 + |b| + 5][..|b|];
  }

  /** The body of one term's page (supportingHTMLFiles), or the exception the
      page call ends with. An empty definition throws at the first scan's
      `charAt(0)`; a non-empty one is what the program's rewriting loop makes
      of it. */
  function PageBody(definition: string, m: Rewriter.GlossMap, seps: set<char>): Result<seq<char>, ScanError>
    requires |definition| <= IntMax
  {
    if |definition| == 0 then Failure(IndexOutOfBounds)
    else ProgramBody(definition, m, seps)
  }

  /** A page call throws exactly when the definition is empty or the program's
      rewriting loop throws on it; otherwise its body is the as-written
      rewriting. */
  lemma PageBodyCases(definition: string, m: Rewriter.GlossMap, seps: set<char>)
    requires |definition| <= IntMax
    ensures PageBody(definition, m, seps).Failure? <==> |definition| == 0 || ThrowsAsWritten(definition, seps)
    ensures PageBody(definition, m, seps).Success? ==>
              PageBody(definition, m, seps).value == RewriteAsWritten(definition, m, seps)
  {
    if 0 < |definition| {
      ProgramBodyCases(definition, m, seps);
    }
  }

  /** One page written: the term (which names the file) and the rewritten
      definition in its body. */
  datatype Page = Page(term: string, body: seq<char>)

  /** The page call for term `t` returns, and `p` is the page it writes. */
  predicate PageFor(t: string, defs: map<string, string>, seps: set<char>, p: Page)
    requires t in defs && |defs[t]| <= IntMax
  {
    PageBody(defs[t], defs, seps) == Success(p.body) && p.term == t
  }

  /** The page call for term `t` throws. */
  predicate PageThrows(t: string, defs: map<string, string>, seps: set<char>)
    requires t in defs && |defs[t]| <= IntMax
  {
    PageBody(defs[t], defs, seps).Failure?
  }

  /** The pass over the queue, for a page call `page` that maps a term to the
      body of its page or to the exception it throws. The pages and index
      lines come out in queue order. When every page call returns, the pass
      writes one page and one index line per term and the queue is back in its
      original order. The first page call that throws ends the pass: its term
      has been taken from the queue and not put back, and neither its index
      line nor any later one is written. */
  method IndexPass(order: seq<string>, page: string --> Result<seq<char>, ScanError>)
    returns (queue: seq<string>, entries: seq<string>, pages: seq<Page>, status: Result<(), ScanError>)
    requires forall i :: 0 <= i < |order| ==> page.requires(order[i])
    ensures status.Success? <==> forall k :: 0 <= k < |order| ==> page(order[k]).Success?
    ensures |pages| == |entries| <= |order|
    ensures forall k :: 0 <= k < |entries| ==> entries[k] == IndexEntry(order[k])
    ensures forall k :: 0 <= k < |pages| ==>
              page(order[k]) == Success(pages[k].body) && pages[k].term == order[k]
    ensures status.Success? ==> |entries| == |order| && queue == order
    ensures status.Failure? ==>
              && |entries| < |order|
              && page(order[|entries|]).Failure?
              && queue == order[|entries| + 1..] + order[..|entries|]
  {
    queue := order;
    entries := [];
    pages := [];
    status := Success(());
    var length := |queue|;
    var k := 0;
    while k < length
      invariant 0 <= k <= length == |order|
      invariant queue == order[k..] + order[..k]
      invariant |entries| == k && |pages| == k
      invariant forall j :: 0 <= j < k ==> entries[j] == IndexEntry(order[j])
      invariant forall j :: 0 <= j < k ==>
                  page(order[j]) == Success(pages[j].body) && pages[j].term == order[j]
    {
      assert queue[0] == order[k];
      var current := queue[0];
      queue := queue[1..];
      var body := page(current);
      if body.Failure? {
        status := Failure(body.error);
        assert queue == order[k + 1..] + order[..k];
        return;
      }
      pages := pages + [Page(current, body.value)];
      entries := entries + [IndexEntry(current)];
      assert order[..k + 1] == order[..k] + [current];
      queue := queue + [current];
      assert queue == order[k + 1..] + order[..k + 1];
      k := k + 1;
    }
    assert order[..length] == order;
  }

  /** The pass as makeIndexHTML runs it: each term's page is the page call on
      its definition from the map, with the program's separator set `seps`. */
  method MakeIndexEntries(order: seq<string>, defs: map<string, string>, seps: set<char>)
    returns (queue: seq<string>, entries: seq<string>, pages: seq<Page>, status: Result<(), ScanError>)
    requires forall i :: 0 <= i < |order| ==> order[i] in defs && |defs[order[i]]| <= IntMax
    ensures status.Success? <==> forall k :: 0 <= k < |order| ==> !PageThrows(order[k], defs, seps)
    ensures |pages| == |entries| <= |order|
    ensures forall k :: 0 <= k < |entries| ==> entries[k] == IndexEntry(order[k])
    ensures forall k :: 0 <= k < |pages| ==> PageFor(order[k], defs, seps, pages[k])
    ensures status.Success? ==> |entries| == |order| && queue == order
    ensures status.Failure? ==>
              && |entries| < |order|
              && PageThrows(order[|entries|], defs, seps)
              && queue == order[|entries| + 1..] + order[..|entries|]
  {
    var page := t requires t in defs && |defs[t]| <= IntMax => PageBody(defs[t], defs, seps);
    assert forall i :: 0 <= i < |order| ==> page(order[i]) == PageBody(defs[order[i]], defs, seps);
    queue, entries, pages, status := IndexPass(order, page);
  }
}
