/** The cross-reference rewriter of the glossary generator: the loop of
    supportingHTMLFiles that walks a definition run by run and wraps every run
    that is a glossary term in a hyperlink to that term's page. */
module Rewriter {
  import opened Outcomes
  import opened Scanner
  import opened Sequences

  /** The glossary as the rewriter sees it: only `run in m` is ever asked. */
  type GlossMap = map<seq<char>, seq<char>>

  /** The hyperlink markup for a term. */
  function Link(run: seq<char>): seq<char>
  {
    "<a href=\"" + run + ".html\">" + run + "</a>"
  }

  /** What the rewriter appends for one run: a link when the run is a key of
      the glossary (whether it is a word or a separator string), the run
      itself otherwise. */
  function Emit(run: seq<char>, m: GlossMap): seq<char>
  {
    if run in m then Link(run) else run
  }

  /** The runs of a list, each passed through Emit, in order. */
  function EmitAll(rs: seq<seq<char>>, m: GlossMap): seq<char>
  {
    if |rs| == 0 then [] else Emit(rs[0], m) + EmitAll(rs[1..], m)
  }

  // ---------------------------------------------------------------------------
  // The rewriter with a single advance per run
  // ---------------------------------------------------------------------------

  /** Rewrites `def` from offset `pos`: each run from the scanner is emitted,
      then the offset moves past it. */
  function RewriteFrom(def: seq<char>, pos: nat, m: GlossMap, seps: set<char>): (out: seq<char>)
    requires pos <= |def|
    decreases |def| - pos
  {
    if pos == |def| then []
    else
      var r := Scan(def, pos, seps);
      Emit(r, m) + RewriteFrom(def, pos + |r|, m, seps)
  }

  /** The rewriter's output is the scanner's runs, each passed through Emit:
      every run that is a term is linked, every other run appears verbatim. */
  lemma {:induction false} RewriteFromEmitsRuns(def: seq<char>, pos: nat, m: GlossMap, seps: set<char>)
    requires pos <= |def|
    ensures RewriteFrom(def, pos, m, seps) == EmitAll(Runs(def, pos, seps), m)
    decreases |def| - pos
  {
    if pos < |def| {
      var r := Scan(def, pos, seps);
      var rest := Runs(def, pos + |r|, seps);
      RewriteFromEmitsRuns(def, pos + |r|, m, seps);
      assert Runs(def, pos, seps) == [r] + rest;
      assert ([r] + rest)[0] == r && ([r] + rest)[1..] == rest;
      assert EmitAll([r] + rest, m) == Emit(r, m) + EmitAll(rest, m);
    }
  }

  /** The whole definition rewritten with one advance per run. */
  function Rewrite(def: seq<char>, m: GlossMap, seps: set<char>): (out: seq<char>)
    ensures out == EmitAll(Runs(def, 0, seps), m)
    ensures Flatten(Runs(def, 0, seps)) == def
    ensures |def| == 0 ==> out == []
    ensures NoMarkupChars(def) ==> Strip(out) == def
  {
    RunsRebuildText(def, seps);
    RewriteFromEmitsRuns(def, 0, m, seps);
    StripRewriteFrom(def, 0, m, seps);
    RewriteFrom(def, 0, m, seps)
  }

  // ---------------------------------------------------------------------------
  // Removing the markup again
  // ---------------------------------------------------------------------------

  /** `s` holds no character that could open or close a tag. */
  predicate NoMarkupChars(s: seq<char>)
  {
    forall i :: 0 <= i < |s| ==> s[i] != '<' && s[i] != '>'
  }

  /** `s` holds no closing angle bracket. */
  predicate NoCloseBracket(s: seq<char>)
  {
    forall i :: 0 <= i < |s| ==> s[i] != '>'
  }

  /** What follows the first '>' of `s` (nothing when there is none). */
  function SkipTag(s: seq<char>): (t: seq<char>)
    ensures |t| <= |s|
  {
    if |s| == 0 then [] else if s[0] == '>' then s[1..] else SkipTag(s[1..])
  }

  /** `s` with every tag removed: a tag runs from a '<' to the next '>'. */
  function Strip(s: seq<char>): seq<char>
    decreases |s|
  {
    if |s| == 0 then []
    else if s[0] == '<' then Strip(SkipTag(s[1..]))
    else [s[0]] + Strip(s[1..])
  }

  lemma {:induction false} StripPlain(t: seq<char>, rest: seq<char>)
    requires NoMarkupChars(t)
    ensures Strip(t + rest) == t + Strip(rest)
    decreases |t|
  {
    if |t| > 0 {
      assert (t + rest)[0] == t[0];
      assert (t + rest)[1..] == t[1..] + rest;
      assert NoMarkupChars(t[1..]) by {
        forall i | 0 <= i < |t| - 1
          ensures t[1..][i] != '<' && t[1..][i] != '>'
        {
          assert t[1..][i] == t[i + 1];
        }
      }
      StripPlain(t[1..], rest);
      assert Strip(t + rest) == [t[0]] + Strip(t[1..] + rest);
      assert t == [t[0]] + t[1..];
      assert [t[0]] + (t[1..] + Strip(rest)) == t + Strip(rest);
    } else {
      assert t + rest == rest;
    }
  }

  lemma {:induction false} SkipTagPast(x: seq<char>, rest: seq<char>)
    requires NoCloseBracket(x)
    ensures SkipTag(x + ">" + rest) == rest
    decreases |x|
  {
    if |x| == 0 {
      assert x + ">" + rest == ">" + rest;
    } else {
      assert (x + ">" + rest)[0] == x[0];
      assert (x + ">" + rest)[1..] == x[1..] + ">" + rest;
      SkipTagPast(x[1..], rest);
    }
  }

  /** Stripping a link leaves exactly the linked run. */
  lemma StripLink(r: seq<char>, rest: seq<char>)
    requires NoMarkupChars(r)
    ensures Strip(Link(r) + rest) == r + Strip(rest)
  {
    var open := "a href=\"" + r + ".html\"";
    assert NoCloseBracket(open) by {
      forall i | 0 <= i < |open|
        ensures open[i] != '>'
      {
        if 8 <= i < 8 + |r| {
          assert open[i] == r[i - 8];
        }
      }
    }
    var tail := r + "</a>" + rest;
    assert Link(r) + rest == "<" + (open + ">" + tail);
    SkipTagPast(open, tail);
    assert Strip(Link(r) + rest) == Strip(tail);
    assert tail == r + ("</a>" + rest);
    StripPlain(r, "</a>" + rest);
    assert ("</a>" + rest)[1..] == "/a" + ">" + rest;
    SkipTagPast("/a", rest);
  }

  lemma StripEmit(r: seq<char>, m: GlossMap, rest: seq<char>)
    requires NoMarkupChars(r)
    ensures Strip(Emit(r, m) + rest) == r + Strip(rest)
  {
    if r in m {
      StripLink(r, rest);
    } else {
      StripPlain(r, rest);
    }
  }

  /** Stripping the emitted runs gives the runs back, concatenated. */
  lemma {:induction false} StripEmitAll(rs: seq<seq<char>>, m: GlossMap)
    requires NoMarkupChars(Flatten(rs))
    ensures Strip(EmitAll(rs, m)) == Flatten(rs)
    decreases |rs|
  {
    if |rs| > 0 {
      var whole := Flatten(rs);
      assert whole == rs[0] + Flatten(rs[1..]);
      assert NoMarkupChars(rs[0]) by {
        forall i | 0 <= i < |rs[0]|
          ensures rs[0][i] != '<' && rs[0][i] != '>'
        {
          assert rs[0][i] == whole[i];
        }
      }
      assert NoMarkupChars(Flatten(rs[1..])) by {
        forall i | 0 <= i < |Flatten(rs[1..])|
          ensures Flatten(rs[1..])[i] != '<' && Flatten(rs[1..])[i] != '>'
        {
          assert Flatten(rs[1..])[i] == whole[|rs[0]| + i];
        }
      }
      StripEmitAll(rs[1..], m);
      StripEmit(rs[0], m, EmitAll(rs[1..], m));
    }
  }

  /** Markup-strip identity: when the definition holds no angle brackets,
      removing the tags from the rewritten text gives the text back. */
  lemma StripRewriteFrom(def: seq<char>, pos: nat, m: GlossMap, seps: set<char>)
    requires pos <= |def|
    ensures NoMarkupChars(def[pos..]) ==> Strip(RewriteFrom(def, pos, m, seps)) == def[pos..]
  {
    if NoMarkupChars(def[pos..]) {
      RunsFlattenToSuffix(def, pos, seps);
      RewriteFromEmitsRuns(def, pos, m, seps);
      StripEmitAll(Runs(def, pos, seps), m);
    }
  }

  /** With no run of the definition being a term, the rewriter passes the
      definition through unchanged. */
  lemma {:induction false} EmitAllWithoutKeys(rs: seq<seq<char>>, m: GlossMap)
    requires forall i :: 0 <= i < |rs| ==> rs[i] !in m
    ensures EmitAll(rs, m) == Flatten(rs)
    decreases |rs|
  {
    if |rs| > 0 {
      EmitAllWithoutKeys(rs[1..], m);
    }
  }

  lemma RewriteWithoutKeys(def: seq<char>, m: GlossMap, seps: set<char>)
    requires forall i :: 0 <= i < |Runs(def, 0, seps)| ==> Runs(def, 0, seps)[i] !in m
    ensures Rewrite(def, m, seps) == def
  {
    RunsRebuildText(def, seps);
    EmitAllWithoutKeys(Runs(def, 0, seps), m);
  }

  // ---------------------------------------------------------------------------
  // The rewriter as written: the first run's length is added twice
  // ---------------------------------------------------------------------------

  /** The runs the program's while loop appends, from the pass in which `run`
      is in hand and `position` is the offset before the advance. After the
      advance the next run is scanned only while the offset is inside the
      definition; otherwise the loop test fails and the loop ends. */
  function LoopRuns(def: seq<char>, seps: set<char>, position: nat, run: seq<char>): seq<seq<char>>
    requires 0 < |run|
    decreases |def| - position
  {
    if position >= |def| then []
    else
      var next := position + |run|;
      [run] + (if next < |def| then LoopRuns(def, seps, next, Scan(def, next, seps)) else [])
  }

  /** Once the run in hand is the one scanned at the loop's offset, the loop
      over the bounded scanner appends exactly the scanner's runs from that
      offset on. */
  lemma {:induction false} LoopRunsResume(def: seq<char>, seps: set<char>, p: nat)
    requires p < |def|
    ensures LoopRuns(def, seps, p, Scan(def, p, seps)) == Runs(def, p, seps)
    decreases |def| - p
  {
    var r := Scan(def, p, seps);
    var next := p + |r|;
    assert Runs(def, p, seps) == [r] + Runs(def, next, seps);
    if next < |def| {
      LoopRunsResume(def, seps, next);
      assert LoopRuns(def, seps, p, r) == [r] + LoopRuns(def, seps, next, Scan(def, next, seps));
    } else {
      assert LoopRuns(def, seps, p, r) == [r] + [] == [r] + Runs(def, next, seps);
    }
  }

  /** The loop over the bounded scanner, entered with the first run in hand and
      the offset at its end: it appends that run again unless it was the whole
      definition, and then the runs from twice its length on. */
  lemma LoopRunsAfterFirst(def: seq<char>, seps: set<char>)
    requires 0 < |def|
    ensures var r0 := Scan(def, 0, seps);
            var n := |r0|;
            LoopRuns(def, seps, n, r0)
            == (if n < |def| then [r0] + (if 2 * n <= |def| then Runs(def, 2 * n, seps) else []) else [])
  {
    var r0 := Scan(def, 0, seps);
    var n := |r0|;
    if n < |def| && 2 * n < |def| {
      LoopRunsResume(def, seps, 2 * n);
    } else if n < |def| && 2 * n == |def| {
      assert Runs(def, 2 * n, seps) == [];
    }
  }

  /** Emitting a concatenation of run lists emits each list in turn. */
  lemma {:induction false} EmitAllAppend(a: seq<seq<char>>, b: seq<seq<char>>, m: GlossMap)
    ensures EmitAll(a + b, m) == EmitAll(a, m) + EmitAll(b, m)
    decreases |a|
  {
    if |a| == 0 {
      assert a + b == b;
    } else {
      assert (a + b)[0] == a[0];
      assert (a + b)[1..] == a[1..] + b;
      EmitAllAppend(a[1..], b, m);
      ConcatAssoc(Emit(a[0], m), EmitAll(a[1..], m), EmitAll(b, m));
    }
  }

  lemma EmitAllCons(r: seq<char>, rs: seq<seq<char>>, m: GlossMap)
    ensures EmitAll([r] + rs, m) == Emit(r, m) + EmitAll(rs, m)
  {
    assert ([r] + rs)[0] == r;
    assert ([r] + rs)[1..] == rs;
  }

  /** The loop's output in closed form, when every scan returns: the first
      run is appended only when it is not the whole definition, and rewriting
      resumes at twice its length. */
  lemma AsWrittenClosedForm(def: seq<char>, m: GlossMap, seps: set<char>)
    requires 0 < |def|
    ensures var r0 := Scan(def, 0, seps);
            EmitAll(LoopRuns(def, seps, |r0|, r0), m)
            == (if |r0| < |def| then Emit(r0, m) else [])
               + (if 2 * |r0| <= |def| then RewriteFrom(def, 2 * |r0|, m, seps) else [])
  {
    var r0 := Scan(def, 0, seps);
    var n := |r0|;
    LoopRunsAfterFirst(def, seps);
    if n < |def| {
      var rest := if 2 * n <= |def| then Runs(def, 2 * n, seps) else [];
      EmitAllCons(r0, rest, m);
      if 2 * n <= |def| {
        RewriteFromEmitsRuns(def, 2 * n, m, seps);
      } else {
        assert EmitAll(rest, m) == [];
      }
    } else {
      assert EmitAll(LoopRuns(def, seps, n, r0), m) == [] + [];
    }
  }

  /** The rewritten definition as the program's loop builds it, with every scan
      taken by the bounded scanner (ProgramBody says where the program's own
      scanner throws instead): the first run is scanned at offset 0, the offset
      is set to its length, and the loop then adds that length again before the
      second scan. The first run is appended only when it is not the whole
      definition, and rewriting resumes at twice its length. */
  function RewriteAsWritten(def: seq<char>, m: GlossMap, seps: set<char>): (out: seq<char>)
    requires 0 < |def|
    ensures var r0 := Scan(def, 0, seps);
            out == (if |r0| < |def| then Emit(r0, m) else [])
                   + (if 2 * |r0| <= |def| then RewriteFrom(def, 2 * |r0|, m, seps) else [])
  {
    var r0 := Scan(def, 0, seps);
    AsWrittenClosedForm(def, m, seps);
    EmitAll(LoopRuns(def, seps, |r0|, r0), m)
  }

  /** A definition that is a single run yields an empty body: the loop never
      runs. When that run is a separator string, the program's first scan
      already throws. */
  lemma SingleRunGivesEmptyBody(def: seq<char>, m: GlossMap, seps: set<char>)
    requires 0 < |def|
    requires |Scan(def, 0, seps)| == |def|
    ensures RewriteAsWritten(def, m, seps) == []
    ensures |def| <= IntMax ==>
              ProgramBody(def, m, seps) == if def[0] in seps then Failure(IndexOutOfBounds) else Success([])
  {
    if |def| <= IntMax {
      ScanIsMaximal(def, 0, seps);
      assert (def[|def| - 1] in seps) == (def[0] in seps);
      ProgramBodyCases(def, m, seps);
    }
  }

  /** What survives the program's rewriting once the markup is stripped: the
      first run, then the definition from twice the first run's length on. The
      text between the first run's end and twice its length never appears. The
      same holds of every body the program returns. */
  lemma StripAsWritten(def: seq<char>, m: GlossMap, seps: set<char>)
    requires 0 < |def|
    requires NoMarkupChars(def)
    ensures var n := |Scan(def, 0, seps)|;
            Strip(RewriteAsWritten(def, m, seps))
            == (if n < |def| then def[..n] + def[if 2 * n <= |def| then 2 * n else |def|..] else [])
    ensures |def| <= IntMax && ProgramBody(def, m, seps).Success? ==>
              var n := |Scan(def, 0, seps)|;
              Strip(ProgramBody(def, m, seps).value)
              == (if n < |def| then def[..n] + def[if 2 * n <= |def| then 2 * n else |def|..] else [])
  {
    var r0 := Scan(def, 0, seps);
    var n := |r0|;
    if |def| <= IntMax {
      ProgramBodyCases(def, m, seps);
    }
    if n < |def| {
      assert NoMarkupChars(r0) by {
        forall i | 0 <= i < n
          ensures r0[i] != '<' && r0[i] != '>'
        {
          assert r0[i] == def[i];
        }
      }
      var rest := if 2 * n <= |def| then RewriteFrom(def, 2 * n, m, seps) else [];
      StripEmit(r0, m, rest);
      if 2 * n <= |def| {
        assert NoMarkupChars(def[2 * n..]) by {
          forall i | 0 <= i < |def| - 2 * n
            ensures def[2 * n..][i] != '<' && def[2 * n..][i] != '>'
          {
            assert def[2 * n..][i] == def[2 * n + i];
          }
        }
        StripRewriteFrom(def, 2 * n, m, seps);
      }
    }
  }

  /** Emitting one more run appends what Emit makes of it. */
  lemma EmitAllSnoc(rs: seq<seq<char>>, r: seq<char>, m: GlossMap)
    ensures EmitAll(rs + [r], m) == EmitAll(rs, m) + Emit(r, m)
  {
    EmitAllAppend(rs, [r], m);
    EmitAllCons(r, [], m);
    assert [r] + [] == [r];
    assert Emit(r, m) + [] == Emit(r, m);
  }

  /** One pass of the program's loop body: append the link or the run itself,
      advance past the run, and scan the next run with the bounded scanner
      while the offset is inside the definition. */
  method LoopBody(definition: seq<char>, m: GlossMap, seps: set<char>, definition2: seq<char>,
                  position: nat, run: seq<char>)
    returns (definition2': seq<char>, position': nat, run': seq<char>)
    requires 0 < |run|
    requires position < |definition|
    ensures definition2' == definition2 + Emit(run, m)
    ensures position' == position + |run|
    ensures 0 < |run'|
    ensures LoopRuns(definition, seps, position, run) == [run] + LoopRuns(definition, seps, position', run')
  {
    if run in m {
      definition2' := definition2 + Link(run);
    } else {
      definition2' := definition2 + run;
    }
    position' := position + |run|;
    run' := run;
    if position' < |definition| {
      run' := NextWordOrSeparator(definition, position', seps);
      ScanUnique(definition, position', seps, run');
    } else {
      assert LoopRuns(definition, seps, position, run) == [run] + [];
    }
  }

  /** The program's loop with its `position` variable, calling the bounded
      scanner method. The ghost `emitted` holds the runs appended so far. Where
      the program returns a body, this is it. */
  method SupportingBody(definition: seq<char>, m: GlossMap, seps: set<char>)
    returns (definition2: seq<char>)
    requires 0 < |definition|
    ensures definition2 == RewriteAsWritten(definition, m, seps)
    ensures |definition| <= IntMax && !ThrowsAsWritten(definition, seps) ==>
              ProgramBody(definition, m, seps) == Success(definition2)
  {
    var position := 0;
    var run := NextWordOrSeparator(definition, position, seps);
    ScanUnique(definition, position, seps, run);
    ghost var all := LoopRuns(definition, seps, |run|, run);
    ghost var emitted: seq<seq<char>> := [];
    position := |run|;
    definition2 := "";
    while position < |definition|
      invariant 0 < |run|
      invariant emitted + LoopRuns(definition, seps, position, run) == all
      invariant definition2 == EmitAll(emitted, m)
      decreases |definition| - position
    {
      ghost var oldRun := run;
      EmitAllSnoc(emitted, run, m);
      definition2, position, run := LoopBody(definition, m, seps, definition2, position, run);
      ConcatAssoc(emitted, [oldRun], LoopRuns(definition, seps, position, run));
      emitted := emitted + [oldRun];
    }
    assert emitted + [] == emitted;
    if |definition| <= IntMax {
      ProgramBodyCases(definition, m, seps);
    }
  }

  // ---------------------------------------------------------------------------
  // The program's loop with the program's own scanner
  // ---------------------------------------------------------------------------

  /** The runs the program's loop appends when every scan is the program's own
      scanner and the offset is a Java `int`. A scan that throws ends the loop
      with the exception; so does an offset pushed past IntMax, which wraps to
      a negative value that passes the test at the rescan and makes `charAt`
      throw. */
  function LoopRunsChecked(def: seq<char>, seps: set<char>, position: nat, run: seq<char>)
    : (r: Result<seq<seq<char>>, ScanError>)
    requires 0 < |run|
    requires |def| <= IntMax
    ensures r.Success? && position < |def| ==> 0 < |r.value| && r.value[0] == run
    decreases |def| - position
  {
    if position >= |def| then Success([])
    else
      var next := position + |run|;
      if next > IntMax then Failure(IndexOutOfBounds)
      else if next < |def| then
        match ScanAsWritten(def, next, seps)
        case Failure(e) => Failure(e)
        case Success(r') =>
          match LoopRunsChecked(def, seps, next, r')
          case Failure(e) => Failure(e)
          case Success(rest) => Success([run] + rest)
      else Success([run])
  }

  /** The body the program builds for a definition, or the exception it ends
      with: the first scan at offset 0, the offset set to that run's length,
      then the loop. */
  function ProgramBody(def: seq<char>, m: GlossMap, seps: set<char>): (r: Result<seq<char>, ScanError>)
    requires 0 < |def| <= IntMax
  {
    match ScanAsWritten(def, 0, seps)
    case Failure(e) => Failure(e)
    case Success(r0) =>
      match LoopRunsChecked(def, seps, |r0|, r0)
      case Failure(e) => Failure(e)
      case Success(rs) => Success(EmitAll(rs, m))
  }

  /** Where the program throws instead of returning a body: some scan starts
      inside a separator run that reaches the end of the definition (the first
      scan, when the definition is one run, or a scan in the loop, when the
      loop resumes before the end), or the offset passes IntMax. */
  predicate ThrowsAsWritten(def: seq<char>, seps: set<char>)
    requires 0 < |def|
  {
    var n := |Scan(def, 0, seps)|;
    || (def[|def| - 1] in seps && (n == |def| || 2 * n < |def|))
    || (n < |def| && 2 * n > IntMax)
  }

  /** Once the run in hand is the one scanned at offset `p`, the checked loop
      throws exactly when it rescans before the end and the definition ends in
      a separator; otherwise it appends the scanner's runs from `p` on. */
  lemma {:induction false} LoopRunsCheckedTail(def: seq<char>, seps: set<char>, p: nat)
    requires p < |def| <= IntMax
    ensures var r := Scan(def, p, seps);
            LoopRunsChecked(def, seps, p, r)
            == if p + |r| < |def| && def[|def| - 1] in seps then Failure(IndexOutOfBounds)
               else Success(Runs(def, p, seps))
    decreases |def| - p
  {
    var r := Scan(def, p, seps);
    var next := p + |r|;
    assert Runs(def, p, seps) == [r] + Runs(def, next, seps);
    if next < |def| {
      var r' := Scan(def, next, seps);
      ScanAsWrittenCases(def, next, seps);
      ScanIsMaximal(def, next, seps);
      if next + |r'| == |def| {
        assert (def[|def| - 1] in seps) == (def[next] in seps);
      }
      if !(def[next] in seps && next + |r'| == |def|) {
        LoopRunsCheckedTail(def, seps, next);
      }
    } else {
      assert Runs(def, p, seps) == [r] + [] == [r];
    }
  }

  /** The program returns a body exactly when ThrowsAsWritten fails, and the
      body it returns is the as-written rewriting. */
  lemma ProgramBodyCases(def: seq<char>, m: GlossMap, seps: set<char>)
    requires 0 < |def| <= IntMax
    ensures ProgramBody(def, m, seps)
            == if ThrowsAsWritten(def, seps) then Failure(IndexOutOfBounds)
               else Success(RewriteAsWritten(def, m, seps))
  {
    var r0 := Scan(def, 0, seps);
    var n := |r0|;
    ScanAsWrittenCases(def, 0, seps);
    ScanIsMaximal(def, 0, seps);
    if n == |def| {
      assert (def[|def| - 1] in seps) == (def[0] in seps);
    } else if 2 * n < |def| {
      var r1 := Scan(def, 2 * n, seps);
      ScanAsWrittenCases(def, 2 * n, seps);
      ScanIsMaximal(def, 2 * n, seps);
      if 2 * n + |r1| == |def| {
        assert (def[|def| - 1] in seps) == (def[2 * n] in seps);
      }
      if !(def[2 * n] in seps && 2 * n + |r1| == |def|) {
        LoopRunsCheckedTail(def, seps, 2 * n);
        LoopRunsResume(def, seps, 2 * n);
      }
    } else if 2 * n <= IntMax {
      assert LoopRuns(def, seps, n, r0) == [r0] + [] == [r0];
    }
  }

  // ---------------------------------------------------------------------------
  // Concrete cases
  // ---------------------------------------------------------------------------

  /** The glossary of the worked example: "a" and "word" are terms. */
  function ExampleGlossary(): (m: GlossMap)
    ensures "a" in m && "word" in m && "short" !in m && " " !in m
  {
    map["a" := "a short word", "word" := "a unit of language"]
  }

  /** The worked example from the second word on, where both rewriters agree. */
  lemma ExampleTail(d: seq<char>, m: GlossMap, seps: set<char>)
    requires d == "a short word" && m == ExampleGlossary() && seps == {' '}
    ensures RewriteFrom(d, 2, m, seps) == "short" + (" " + Link("word"))
  {
    ScanUnique(d, 2, seps, "short");
    ScanUnique(d, 7, seps, " ");
    ScanUnique(d, 8, seps, "word");
    assert RewriteFrom(d, 12, m, seps) == [];
    assert RewriteFrom(d, 8, m, seps) == Link("word");
  }

  /** The worked example rewritten with one advance per run: both terms are
      linked and the spaces survive. */
  lemma RewriteExample(d: seq<char>, m: GlossMap, seps: set<char>)
    requires d == "a short word" && m == ExampleGlossary() && seps == {' '}
    ensures Rewrite(d, m, seps) == Link("a") + " " + "short" + " " + Link("word")
  {
    ScanUnique(d, 0, seps, "a");
    ScanUnique(d, 1, seps, " ");
    ExampleTail(d, m, seps);
    var a, w := Link("a"), Link("word");
    assert RewriteFrom(d, 0, m, seps) == a + (" " + ("short" + (" " + w)));
    ConcatAssoc(a, " ", "short" + (" " + w));
    ConcatAssoc(a + " ", "short", " " + w);
    ConcatAssoc(a + " " + "short", " ", w);
  }

  /** The same example through the program's loop: the space after the first
      term is lost. The definition ends in a word, so the program returns that
      body. */
  lemma AsWrittenExample(d: seq<char>, m: GlossMap, seps: set<char>)
    requires d == "a short word" && m == ExampleGlossary() && seps == {' '}
    ensures RewriteAsWritten(d, m, seps) == Link("a") + "short" + " " + Link("word")
    ensures ProgramBody(d, m, seps) == Success(Link("a") + "short" + " " + Link("word"))
  {
    ScanUnique(d, 0, seps, "a");
    assert d[|d| - 1] !in seps;
    ProgramBodyCases(d, m, seps);
    ExampleTail(d, m, seps);
    var a, w := Link("a"), Link("word");
    ConcatAssoc(a, "short", " " + w);
    ConcatAssoc(a + "short", " ", w);
  }

  /** Stripping the markup from the program's output for the worked example
      does not give the definition back: one character is missing. */
  lemma AsWrittenLosesText(d: seq<char>, m: GlossMap, seps: set<char>)
    requires d == "a short word" && m == ExampleGlossary() && seps == {' '}
    ensures |Strip(RewriteAsWritten(d, m, seps))| == |d| - 1
    ensures Strip(RewriteAsWritten(d, m, seps)) != d
  {
    ScanUnique(d, 0, seps, "a");
    ExampleHasNoMarkup();
    StripAsWritten(d, m, seps);
  }

  lemma ExampleHasNoMarkup()
    ensures NoMarkupChars("a short word")
  {
  }

  /** After the double advance the scan can start inside a word, and a
      fragment of that word is linked when it happens to be a term. The program
      returns that body. */
  lemma AsWrittenLinksFragment()
    ensures RewriteAsWritten("ab cd", map["d" := "x"], {' '}) == "ab" + Link("d")
    ensures ProgramBody("ab cd", map["d" := "x"], {' '}) == Success("ab" + Link("d"))
  {
    var d := "ab cd";
    var m := map["d" := "x"];
    var seps := {' '};
    ScanUnique(d, 0, seps, "ab");
    assert d[|d| - 1] !in seps;
    ProgramBodyCases(d, m, seps);
    ScanUnique(d, 4, seps, "d");
    assert RewriteFrom(d, 5, m, seps) == [];
    assert RewriteFrom(d, 4, m, seps) == Link("d");
  }

  /** A definition ending in a separator, where the loop resumes before the
      end: the program's scan at offset 3 starts in the trailing space and
      throws. */
  lemma TrailingSpaceThrows()
    ensures ProgramBody("a b ", map[], {' '}) == Failure(IndexOutOfBounds)
  {
    assert IsMaximalRun("a b ", 0, {' '}, "a");
    ScanUnique("a b ", 0, {' '}, "a");
    ProgramBodyCases("a b ", map[], {' '});
  }

  /** A definition ending in a separator whose trailing run the double advance
      skips: the program returns, with the trailing space lost. */
  lemma SkippedTrailingSpaceReturns()
    ensures ProgramBody("ab ", map[], {' '}) == Success("ab")
  {
    assert IsMaximalRun("ab ", 0, {' '}, "ab");
    ScanUnique("ab ", 0, {' '}, "ab");
    ProgramBodyCases("ab ", map[], {' '});
    assert !ThrowsAsWritten("ab ", {' '});
    var m: GlossMap := map[];
    assert "ab" !in m;
    assert RewriteAsWritten("ab ", m, {' '}) == Emit("ab", m) + [] == "ab";
  }
}
