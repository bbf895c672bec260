/** The glossary loader (getGlossMap): reads the input file, given here as its
    sequence of lines, into the list of terms in file order and the map from
    each term to its definition. */
module Loader {
  import opened Outcomes
  import opened Sequences

  /** One entry of the input file: the term line, the first definition line
      (taken whatever it holds) and the further lines before the blank line. */
  datatype Block = Block(term: string, first: string, more: seq<string>)

  /** Why loading stops: a line was read past the end of the input, or a term
      was added to the map a second time. */
  datatype LoadError = MissingLine | DuplicateTerm(term: string)

  /** What the loader produces: the terms in the order they were read and the
      term-to-definition map. */
  datatype Glossary = Glossary(order: seq<string>, defs: map<string, string>)

  /** The lines concatenated with nothing in between. */
  function Join(ls: seq<string>): string
  {
    if |ls| == 0 then [] else ls[0] + Join(ls[1..])
  }

  /** The definition a block stands for: its lines joined without separators. */
  function Definition(b: Block): string
  {
    b.first + Join(b.more)
  }

  /** None of the lines is blank. */
  predicate NonBlank(ls: seq<string>)
  {
    forall i :: 0 <= i < |ls| ==> ls[i] != ""
  }

  /** Reads the lines after the first definition line up to the blank line,
      which is consumed; returns them with the lines left over. */
  function ReadMore(lines: seq<string>): (r: Result<(seq<string>, seq<string>), LoadError>)
    ensures r.Success? ==> NonBlank(r.value.0) && lines == r.value.0 + [""] + r.value.1
    ensures r.Failure? <==> NonBlank(lines)
    ensures r.Failure? ==> r.error == MissingLine
  {
    if |lines| == 0 then Failure(MissingLine)
    else if lines[0] == "" then Success(([], lines[1..]))
    else
      match ReadMore(lines[1..])
      case Failure(e) => Failure(e)
      case Success((more, rest)) => Success(([lines[0]] + more, rest))
  }

  /** One pass of the outer read loop: term line, first definition line, then
      the further lines through the blank line. */
  function ReadBlock(lines: seq<string>): (r: Result<(Block, seq<string>), LoadError>)
    requires |lines| > 0
    ensures r.Success? ==>
              && NonBlank(r.value.0.more)
              && lines == [r.value.0.term, r.value.0.first] + r.value.0.more + [""] + r.value.1
    ensures r.Failure? <==> |lines| == 1 || NonBlank(lines[2..])
  {
    if |lines| == 1 then Failure(MissingLine)
    else
      match ReadMore(lines[2..])
      case Failure(e) => Failure(e)
      case Success((more, rest)) => Success((Block(lines[0], lines[1], more), rest))
  }

  /** No term occurs twice in the sequence. */
  predicate Distinct(ts: seq<string>)
  {
    forall i, j :: 0 <= i < j < |ts| ==> ts[i] != ts[j]
  }

  /** The loader's state stays consistent: each term is read once and the
      map's keys are exactly the terms read. */
  predicate Consistent(g: Glossary)
  {
    && Distinct(g.order)
    && (forall t :: t in g.defs ==> t in g.order)
    && (forall i :: 0 <= i < |g.order| ==> g.order[i] in g.defs)
  }

  /** The read loop from the current state `acc` on: each block's term is
      enqueued and added to the map with its definition. */
  function LoadFrom(lines: seq<string>, acc: Glossary): (r: Result<Glossary, LoadError>)
    requires Consistent(acc)
    ensures r.Success? ==> Consistent(r.value)
    ensures r.Success? ==> |acc.order| <= |r.value.order| && r.value.order[..|acc.order|] == acc.order
    decreases |lines|
  {
    if |lines| == 0 then Success(acc)
    else
      match ReadBlock(lines)
      case Failure(e) => Failure(e)
      case Success((b, rest)) =>
        if b.term in acc.defs then Failure(DuplicateTerm(b.term))
        else
          var next := Glossary(acc.order + [b.term], acc.defs[b.term := Definition(b)]);
          assert (acc.order + [b.term])[..|acc.order|] == acc.order;
          LoadFrom(rest, next)
  }

  /** The loader as the program calls it: an empty queue and an empty map. */
  function GetGlossMap(lines: seq<string>): (r: Result<Glossary, LoadError>)
    ensures r.Success? ==> Distinct(r.value.order)
    ensures r.Success? ==> forall t :: t in r.value.defs <==> t in r.value.order
    ensures |lines| == 0 ==> r == Success(Glossary([], map[]))
  {
    LoadFrom(lines, Glossary([], map[]))
  }

  // ---------------------------------------------------------------------------
  // The file format as a list of blocks
  // ---------------------------------------------------------------------------

  /** Every block's further lines are non-blank, as the read loop needs. */
  predicate WellFormed(bs: seq<Block>)
  {
    forall i :: 0 <= i < |bs| ==> NonBlank(bs[i].more)
  }

  /** The lines a list of blocks is written as: each block's lines followed by
      a blank line. */
  function Format(bs: seq<Block>): seq<string>
  {
    if |bs| == 0 then []
    else [bs[0].term, bs[0].first] + bs[0].more + [""] + Format(bs[1..])
  }

  /** The input split into blocks, with the read loop's failure cases. */
  function ParseBlocks(lines: seq<string>): Result<seq<Block>, LoadError>
    decreases |lines|
  {
    if |lines| == 0 then Success([])
    else
      match ReadBlock(lines)
      case Failure(e) => Failure(e)
      case Success((b, rest)) =>
        match ParseBlocks(rest)
        case Failure(e) => Failure(e)
        case Success(bs) => Success([b] + bs)
  }

  /** The terms of the blocks, in order. */
  function Terms(bs: seq<Block>): (ts: seq<string>)
    ensures |ts| == |bs|
    ensures forall i :: 0 <= i < |bs| ==> ts[i] == bs[i].term
  {
    if |bs| == 0 then [] else [bs[0].term] + Terms(bs[1..])
  }

  /** The map built by adding each block's definition under its term, in
      order, to `m`. */
  function DefsFrom(bs: seq<Block>, m: map<string, string>): map<string, string>
  {
    if |bs| == 0 then m else DefsFrom(bs[1..], m[bs[0].term := Definition(bs[0])])
  }

  /** No block's term is used already or by another block. */
  predicate FreshTerms(bs: seq<Block>, used: set<string>)
  {
    && Distinct(Terms(bs))
    && forall i :: 0 <= i < |bs| ==> bs[i].term !in used
  }

  lemma {:induction false} ReadMoreFormat(more: seq<string>, rest: seq<string>)
    requires NonBlank(more)
    ensures ReadMore(more + [""] + rest) == Success((more, rest))
    decreases |more|
  {
    var lines := more + [""] + rest;
    if |more| == 0 {
      assert lines == [""] + rest;
    } else {
      assert lines[1..] == more[1..] + [""] + rest;
      ReadMoreFormat(more[1..], rest);
      assert [more[0]] + more[1..] == more;
    }
  }

  /** Parsing the lines of well-formed blocks gives the blocks back. */
  lemma {:induction false} ParseFormat(bs: seq<Block>)
    requires WellFormed(bs)
    ensures ParseBlocks(Format(bs)) == Success(bs)
    decreases |bs|
  {
    if |bs| > 0 {
      var b := bs[0];
      var lines := Format(bs);
      var rest := Format(bs[1..]);
      assert lines[2..] == b.more + [""] + rest;
      ReadMoreFormat(b.more, rest);
      assert ReadBlock(lines) == Success((Block(b.term, b.first, b.more), rest));
      ParseFormat(bs[1..]);
      assert [b] + bs[1..] == bs;
    }
  }

  /** Whatever the parser accepts is the lines of well-formed blocks. */
  lemma {:induction false} FormatParse(lines: seq<string>)
    ensures ParseBlocks(lines).Success? ==>
              WellFormed(ParseBlocks(lines).value) && Format(ParseBlocks(lines).value) == lines
    decreases |lines|
  {
    if |lines| > 0 && ParseBlocks(lines).Success? {
      var (b, rest) := ReadBlock(lines).value;
      FormatParse(rest);
      var bs := ParseBlocks(lines).value;
      assert bs == [b] + ParseBlocks(rest).value;
      assert bs[1..] == ParseBlocks(rest).value;
    }
  }

  lemma {:induction false} FreshTermsStep(bs: seq<Block>, used: set<string>)
    requires |bs| > 0
    ensures FreshTerms(bs, used) <==>
              bs[0].term !in used && FreshTerms(bs[1..], used + {bs[0].term})
  {
    var ts := Terms(bs);
    var tail := Terms(bs[1..]);
    assert forall i :: 0 <= i < |tail| ==> tail[i] == ts[i + 1];
    if FreshTerms(bs, used) {
      forall i | 0 <= i < |bs| - 1
        ensures bs[1..][i].term !in used + {bs[0].term}
      {
        assert ts[0] != ts[i + 1];
      }
    }
    if bs[0].term !in used && FreshTerms(bs[1..], used + {bs[0].term}) {
      forall i, j | 0 <= i < j < |ts|
        ensures ts[i] != ts[j]
      {
        if i > 0 {
          assert tail[i - 1] != tail[j - 1];
        } else {
          assert bs[1..][j - 1].term !in used + {bs[0].term};
        }
      }
      forall i | 0 <= i < |bs|
        ensures bs[i].term !in used
      {
        if i > 0 {
          assert bs[1..][i - 1].term !in used + {bs[0].term};
        }
      }
    }
  }

  /** The read loop succeeds exactly when the input splits into blocks whose
      terms are new and distinct; it then enqueues their terms in file order
      and adds their definitions. */
  lemma {:induction false} LoadFromBlocks(lines: seq<string>, acc: Glossary)
    requires Consistent(acc)
    ensures LoadFrom(lines, acc).Success? <==>
              ParseBlocks(lines).Success? && FreshTerms(ParseBlocks(lines).value, acc.defs.Keys)
    ensures LoadFrom(lines, acc).Success? ==>
              LoadFrom(lines, acc).value
              == Glossary(acc.order + Terms(ParseBlocks(lines).value),
                          DefsFrom(ParseBlocks(lines).value, acc.defs))
    decreases |lines|, 1
  {
    if |lines| == 0 {
      assert acc.order + [] == acc.order;
    } else if ReadBlock(lines).Success? {
      var (b, rest) := ReadBlock(lines).value;
      if b.term !in acc.defs {
        LoadFromFreshBlock(lines, acc);
      } else if ParseBlocks(rest).Success? {
        var bs := [b] + ParseBlocks(rest).value;
        assert ParseBlocks(lines) == Success(bs);
        assert bs[0].term in acc.defs.Keys;
      }
    }
  }

  /** The step of LoadFromBlocks where the next block's term is new. */
  lemma {:induction false} LoadFromFreshBlock(lines: seq<string>, acc: Glossary)
    requires Consistent(acc)
    requires |lines| > 0 && ReadBlock(lines).Success?
    requires ReadBlock(lines).value.0.term !in acc.defs
    ensures LoadFrom(lines, acc).Success? <==>
              ParseBlocks(lines).Success? && FreshTerms(ParseBlocks(lines).value, acc.defs.Keys)
    ensures LoadFrom(lines, acc).Success? ==>
              LoadFrom(lines, acc).value
              == Glossary(acc.order + Terms(ParseBlocks(lines).value),
                          DefsFrom(ParseBlocks(lines).value, acc.defs))
    decreases |lines|, 0
  {
    var (b, rest) := ReadBlock(lines).value;
    var next := Glossary(acc.order + [b.term], acc.defs[b.term := Definition(b)]);
    LoadFromUnfold(lines, acc);
    ParseUnfold(lines);
    LoadFromBlocks(rest, next);
    if ParseBlocks(rest).Success? {
      BlocksCons(acc, b, ParseBlocks(rest).value);
    }
  }

  /** One turn of the read loop on a block with a new term. */
  lemma LoadFromUnfold(lines: seq<string>, acc: Glossary)
    requires Consistent(acc)
    requires |lines| > 0 && ReadBlock(lines).Success?
    requires ReadBlock(lines).value.0.term !in acc.defs
    ensures var (b, rest) := ReadBlock(lines).value;
            var next := Glossary(acc.order + [b.term], acc.defs[b.term := Definition(b)]);
            Consistent(next) && LoadFrom(lines, acc) == LoadFrom(rest, next)
  {
  }

  /** One turn of the parser. */
  lemma ParseUnfold(lines: seq<string>)
    requires |lines| > 0 && ReadBlock(lines).Success?
    ensures var (b, rest) := ReadBlock(lines).value;
            && (ParseBlocks(lines).Success? <==> ParseBlocks(rest).Success?)
            && (ParseBlocks(rest).Success? ==> ParseBlocks(lines).value == [b] + ParseBlocks(rest).value)
  {
  }

  /** The loader's view of a block list whose head has a new term. */
  lemma BlocksCons(acc: Glossary, b: Block, bs: seq<Block>)
    requires b.term !in acc.defs
    ensures var next := Glossary(acc.order + [b.term], acc.defs[b.term := Definition(b)]);
            && (FreshTerms([b] + bs, acc.defs.Keys) <==> FreshTerms(bs, next.defs.Keys))
            && next.order + Terms(bs) == acc.order + Terms([b] + bs)
            && DefsFrom(bs, next.defs) == DefsFrom([b] + bs, acc.defs)
  {
    var next := Glossary(acc.order + [b.term], acc.defs[b.term := Definition(b)]);
    var bs' := [b] + bs;
    assert bs'[1..] == bs;
    assert next.defs.Keys == acc.defs.Keys + {b.term};
    FreshTermsStep(bs', acc.defs.Keys);
    assert Terms(bs') == [b.term] + Terms(bs);
    ConcatAssoc(acc.order, [b.term], Terms(bs));
  }


  /** The definitions in the map built from fresh blocks are the blocks' own,
      and nothing else in the map changes. */
  lemma {:induction false} DefsFromLookup(bs: seq<Block>, m: map<string, string>)
    requires FreshTerms(bs, m.Keys)
    ensures forall i :: 0 <= i < |bs| ==>
              bs[i].term in DefsFrom(bs, m) && DefsFrom(bs, m)[bs[i].term] == Definition(bs[i])
    ensures forall t :: t in m ==> t in DefsFrom(bs, m) && DefsFrom(bs, m)[t] == m[t]
    ensures forall t :: t in DefsFrom(bs, m) ==> t in m || t in Terms(bs)
    decreases |bs|
  {
    if |bs| > 0 {
      var m' := m[bs[0].term := Definition(bs[0])];
      FreshTermsStep(bs, m.Keys);
      assert m'.Keys == m.Keys + {bs[0].term};
      DefsFromLookup(bs[1..], m');
      forall i | 0 <= i < |bs|
        ensures bs[i].term in DefsFrom(bs, m) && DefsFrom(bs, m)[bs[i].term] == Definition(bs[i])
      {
        if i > 0 {
          assert bs[i] == bs[1..][i - 1];
        }
      }
      forall t | t in DefsFrom(bs, m)
        ensures t in m || t in Terms(bs)
      {
        if t !in m' {
          assert t in Terms(bs[1..]);
          var k :| 0 <= k < |bs| - 1 && Terms(bs[1..])[k] == t;
          assert Terms(bs)[k + 1] == t;
        } else if t !in m {
          assert Terms(bs)[0] == t;
        }
      }
    }
  }

  /** Loading the lines of well-formed blocks with distinct terms gives the
      terms in file order, each mapped to its block's joined lines. */
  lemma LoadFormat(bs: seq<Block>)
    requires WellFormed(bs)
    requires Distinct(Terms(bs))
    ensures GetGlossMap(Format(bs)).Success?
    ensures GetGlossMap(Format(bs)).value.order == Terms(bs)
    ensures forall i :: 0 <= i < |bs| ==>
              GetGlossMap(Format(bs)).value.defs[bs[i].term] == Definition(bs[i])
  {
    var empty := Glossary([], map[]);
    ParseFormat(bs);
    LoadFromBlocks(Format(bs), empty);
    DefsFromLookup(bs, map[]);
    assert [] + Terms(bs) == Terms(bs);
  }

  /** Conversely, whatever the loader accepts is the lines of well-formed
      blocks with distinct terms, and the result is read off those blocks;
      the loader fails exactly when no such blocks exist or a term repeats. */
  lemma LoadParses(lines: seq<string>)
    ensures GetGlossMap(lines).Success? <==>
              ParseBlocks(lines).Success? && Distinct(Terms(ParseBlocks(lines).value))
    ensures GetGlossMap(lines).Success? ==>
              var bs := ParseBlocks(lines).value;
              && WellFormed(bs)
              && Format(bs) == lines
              && GetGlossMap(lines).value.order == Terms(bs)
              && forall i :: 0 <= i < |bs| ==>
                   GetGlossMap(lines).value.defs[bs[i].term] == Definition(bs[i])
  {
    var empty := Glossary([], map[]);
    LoadFromBlocks(lines, empty);
    FormatParse(lines);
    if GetGlossMap(lines).Success? {
      var bs := ParseBlocks(lines).value;
      DefsFromLookup(bs, map[]);
      assert [] + Terms(bs) == Terms(bs);
    }
  }

  /** The first definition line is taken whatever it holds, and the further
      lines are appended with nothing in between. */
  lemma TwoLineDefinition(t: string, l1: string, l2: string)
    requires l2 != ""
    ensures GetGlossMap([t, l1, l2, ""]) == Success(Glossary([t], map[t := l1 + l2]))
  {
    var b := Block(t, l1, [l2]);
    assert Format([b]) == [t, l1, l2, ""];
    assert Join([l2]) == l2;
    LoadFormat([b]);
    LoadFromBlocks([t, l1, l2, ""], Glossary([], map[]));
  }
}
