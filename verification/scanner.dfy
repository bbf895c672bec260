/** The word/separator scanner of the glossary generator (nextWordOrSeparator):
    a two-mode longest-match run over a text and a set of separator characters. */
module Scanner {
  import opened Outcomes

  /** Every character of `s` is a separator. */
  predicate AllSeparators(s: seq<char>, seps: set<char>)
  {
    forall i :: 0 <= i < |s| ==> s[i] in seps
  }

  /** No character of `s` is a separator. */
  predicate NoSeparators(s: seq<char>, seps: set<char>)
  {
    forall i :: 0 <= i < |s| ==> s[i] !in seps
  }

  /** `r` is the maximal run at `pos`: the text starting there, every
      character of the same kind as `text[pos]` (separator or word character),
      and followed by the end of the text or a character of the other kind. */
  predicate IsMaximalRun(text: seq<char>, pos: nat, seps: set<char>, r: seq<char>)
    requires pos < |text|
  {
    && pos + |r| <= |text|
    && r == text[pos..pos + |r|]
    && (forall j :: pos <= j < pos + |r| ==> (text[j] in seps) == (text[pos] in seps))
    && (pos + |r| == |text| || (text[pos + |r|] in seps) != (text[pos] in seps))
  }

  /** The first index at or after `i` whose character is not of the kind `inSep`
      (separator when true, word character when false), or the end of the text. */
  function RunEnd(text: seq<char>, i: nat, inSep: bool, seps: set<char>): (e: nat)
    requires i <= |text|
    ensures i <= e <= |text|
    decreases |text| - i
  {
    if i == |text| || (text[i] in seps) != inSep then i
    else RunEnd(text, i + 1, inSep, seps)
  }

  /** Every character before the run's end is of the run's kind, and the end is
      the end of the text or a character of the other kind. */
  lemma {:induction false} RunEndStops(text: seq<char>, i: nat, inSep: bool, seps: set<char>)
    requires i <= |text|
    ensures forall j :: i <= j < RunEnd(text, i, inSep, seps) ==> (text[j] in seps) == inSep
    ensures RunEnd(text, i, inSep, seps) == |text| || (text[RunEnd(text, i, inSep, seps)] in seps) != inSep
    decreases |text| - i
  {
    if i < |text| && (text[i] in seps) == inSep {
      RunEndStops(text, i + 1, inSep, seps);
    }
  }

  /** `e` ends the run that starts at `pos`. */
  predicate EndsRun(text: seq<char>, pos: nat, seps: set<char>, e: int)
    requires pos < |text|
  {
    && pos < e <= |text|
    && (forall j :: pos <= j < e ==> (text[j] in seps) == (text[pos] in seps))
    && (e == |text| || (text[e] in seps) != (text[pos] in seps))
  }

  /** The run starting at `pos`, with the end-of-text bound on both loops. */
  function Scan(text: seq<char>, pos: nat, seps: set<char>): (r: seq<char>)
    requires pos < |text|
    ensures 0 < |r| <= |text| - pos
  {
    RunEndStops(text, pos, text[pos] in seps, seps);
    assert EndsRun(text, pos, seps, RunEnd(text, pos, text[pos] in seps, seps));
    var e :| EndsRun(text, pos, seps, e);
    text[pos..e]
  }

  /** The scanner returns the maximal run at `pos`. */
  lemma ScanIsMaximal(text: seq<char>, pos: nat, seps: set<char>)
    requires pos < |text|
    ensures IsMaximalRun(text, pos, seps, Scan(text, pos, seps))
  {
    RunEndStops(text, pos, text[pos] in seps, seps);
    assert EndsRun(text, pos, seps, RunEnd(text, pos, text[pos] in seps, seps));
  }

  /** The scanner meets the contract documented in GlossaryProject, stated on the
      run itself: a word holds no separator and is followed by one or by the end
      of the text; a separator string holds only separators and is followed by
      a word character or by the end of the text. */
  lemma ScanMeetsDocumentedContract(text: seq<char>, pos: nat, seps: set<char>)
    requires pos < |text|
    ensures var r := Scan(text, pos, seps);
            && r == text[pos..pos + |r|]
            && (text[pos] !in seps ==>
                  NoSeparators(r, seps) && (pos + |r| == |text| || text[pos + |r|] in seps))
            && (text[pos] in seps ==>
                  AllSeparators(r, seps) && (pos + |r| == |text| || text[pos + |r|] !in seps))
  {
    var r := Scan(text, pos, seps);
    ScanIsMaximal(text, pos, seps);
    forall i | 0 <= i < |r|
      ensures (r[i] in seps) == (text[pos] in seps)
    {
      assert r[i] == text[pos + i];
    }
  }

  /** The documented contract pins the run down: any string meeting it is the
      scanner's result. */
  lemma ScanUnique(text: seq<char>, pos: nat, seps: set<char>, r: seq<char>)
    requires pos < |text|
    requires IsMaximalRun(text, pos, seps, r)
    ensures r == Scan(text, pos, seps)
  {
    ScanIsMaximal(text, pos, seps);
  }

  /** The scanner as the program writes it, except that the separator loop also
      stops at the end of the text. */
  method NextWordOrSeparator(text: seq<char>, position: nat, seps: set<char>)
    returns (run: seq<char>)
    requires position < |text|
    ensures IsMaximalRun(text, position, seps, run)
    ensures 0 < |run|
  {
    var index := position;
    var tmp := text[index];
    if tmp in seps {
      while index < |text| && tmp in seps
        invariant position <= index <= |text|
        invariant index < |text| ==> tmp == text[index]
        invariant forall j :: position <= j < index ==> text[j] in seps
        decreases |text| - index
      {
        index := index + 1;
        if index < |text| {
          tmp := text[index];
        }
      }
    } else {
      while tmp !in seps && index < |text|
        invariant position <= index <= |text|
        invariant index < |text| ==> tmp == text[index]
        invariant forall j :: position <= j < index ==> text[j] !in seps
        decreases |text| - index
      {
        index := index + 1;
        if index < |text| {
          tmp := text[index];
        }
      }
    }
    run := text[position..index];
  }

  /** A run started inside another run is the rest of that run: a scan that
      begins in the middle of a word yields a fragment of the word. */
  lemma ScanInsideRun(text: seq<char>, pos: nat, q: nat, seps: set<char>)
    requires pos < |text|
    requires pos < q < pos + |Scan(text, pos, seps)|
    ensures Scan(text, q, seps) == text[q..pos + |Scan(text, pos, seps)|]
  {
    var r := Scan(text, pos, seps);
    var e := pos + |r|;
    ScanIsMaximal(text, pos, seps);
    assert text[q] == r[q - pos];
    assert IsMaximalRun(text, q, seps, text[q..e]) by {
      forall j | 0 <= j < e - q
        ensures text[q..e][j] == r[q - pos + j]
      {
      }
    }
    ScanUnique(text, q, seps, text[q..e]);
  }

  /** The concatenation of a sequence of strings. */
  function Flatten(rs: seq<seq<char>>): seq<char>
  {
    if |rs| == 0 then [] else rs[0] + Flatten(rs[1..])
  }

  /** The runs obtained by scanning from `pos` and advancing by each run's
      length until the end of the text. */
  function Runs(text: seq<char>, pos: nat, seps: set<char>): (rs: seq<seq<char>>)
    requires pos <= |text|
    ensures forall i :: 0 <= i < |rs| ==> |rs[i]| > 0
    decreases |text| - pos
  {
    if pos == |text| then []
    else
      var r := Scan(text, pos, seps);
      [r] + Runs(text, pos + |r|, seps)
  }

  /** The runs from `pos` cover the rest of the text exactly. */
  lemma {:induction false} RunsFlattenToSuffix(text: seq<char>, pos: nat, seps: set<char>)
    requires pos <= |text|
    ensures Flatten(Runs(text, pos, seps)) == text[pos..]
    decreases |text| - pos
  {
    if pos < |text| {
      var r := Scan(text, pos, seps);
      var rest := Runs(text, pos + |r|, seps);
      RunsFlattenToSuffix(text, pos + |r|, seps);
      assert ([r] + rest)[1..] == rest;
      assert text[pos..] == r + text[pos + |r|..];
    }
  }

  /** Round trip: scanning a whole text from offset 0 and concatenating the runs
      gives the text back, with no gap and no overlap. */
  lemma RunsRebuildText(text: seq<char>, seps: set<char>)
    ensures Flatten(Runs(text, 0, seps)) == text
  {
    RunsFlattenToSuffix(text, 0, seps);
    assert text[0..] == text;
  }

  /** Every run is all separators or all word characters, and neighbouring runs
      are of opposite kinds. */
  lemma {:induction false} RunsAlternate(text: seq<char>, pos: nat, seps: set<char>, i: nat)
    requires pos <= |text|
    requires i < |Runs(text, pos, seps)|
    ensures AllSeparators(Runs(text, pos, seps)[i], seps)
            || NoSeparators(Runs(text, pos, seps)[i], seps)
    ensures i + 1 < |Runs(text, pos, seps)| ==>
              (Runs(text, pos, seps)[i][0] in seps) != (Runs(text, pos, seps)[i + 1][0] in seps)
    decreases |text| - pos
  {
    var r := Scan(text, pos, seps);
    var rest := Runs(text, pos + |r|, seps);
    assert Runs(text, pos, seps) == [r] + rest;
    ScanIsMaximal(text, pos, seps);
    if i == 0 {
      if 1 < |Runs(text, pos, seps)| {
        assert rest[0] == Scan(text, pos + |r|, seps);
        assert rest[0][0] == text[pos + |r|];
        assert r[0] == text[pos];
      }
    } else {
      RunsAlternate(text, pos + |r|, seps, i - 1);
    }
  }

  /** The largest Java `int`: a Java string is at most this long, and `index`
      wraps to the smallest `int` when it is incremented past it. */
  const IntMax: nat := 0x7fff_ffff

  /** The number of Java `char`s (UTF-16 code units) that encode `c`: one up
      to U+FFFF, a surrogate pair above it. */
  function Utf16Units(c: char): nat
  {
    if c <= '\U{FFFF}' then 1 else 2
  }

  /** `String.length()`: the text's length in UTF-16 code units. A model
      character is one Java `char` only when it is at most U+FFFF. */
  function JavaLength(s: seq<char>): (n: nat)
    ensures |s| <= n <= 2 * |s|
  {
    if |s| == 0 then 0 else JavaLength(s[..|s| - 1]) + Utf16Units(s[|s| - 1])
  }

  /** Every character of `s` lies in the Basic Multilingual Plane. */
  predicate Bmp(s: seq<char>)
  {
    forall i :: 0 <= i < |s| ==> s[i] <= '\U{FFFF}'
  }

  /** The model's lengths and offsets are the program's exactly on BMP text:
      `length()` counts one per character if and only if no character lies
      above U+FFFF. */
  lemma {:induction false} JavaLengthCounts(s: seq<char>)
    ensures JavaLength(s) == |s| <==> Bmp(s)
    decreases |s|
  {
    if |s| > 0 {
      var p := s[..|s| - 1];
      JavaLengthCounts(p);
      if Bmp(s) {
        assert Bmp(p) by {
          forall i | 0 <= i < |p| ensures p[i] <= '\U{FFFF}' {
            assert p[i] == s[i];
          }
        }
      } else if JavaLength(s) == |s| {
        assert JavaLength(p) == |p| && Utf16Units(s[|s| - 1]) == 1;
        forall i | 0 <= i < |s| ensures s[i] <= '\U{FFFF}' {
          if i < |p| {
            assert s[i] == p[i];
          }
        }
        assert false;
      }
    }
  }

  /** A character above U+FFFF, such as U+1F600, counts twice. */
  lemma EmojiCountsTwice()
    ensures JavaLength("\U{1F600}") == 2 && !Bmp("\U{1F600}")
  {
  }

  /** The exception the scanner can end with: `charAt` at an index outside the
      text. */
  datatype ScanError = IndexOutOfBounds

  /** The separator loop exactly as the program writes it, with `index` a Java
      `int`. The loop re-reads the character only while the index is inside the
      text and otherwise keeps the last one; it has no end-of-text test of its
      own. Incrementing `index` past IntMax wraps it to a negative value, which
      passes the test `index < length` and makes `charAt` throw. */
  function SeparatorLoopAsWritten(text: seq<char>, index: nat, tmp: char, seps: set<char>)
    : (r: Result<nat, ScanError>)
    requires index <= IntMax
    ensures r.Success? && tmp !in seps ==> r.value == index
    ensures r.Success? && tmp in seps ==> index < r.value < |text| && text[r.value] !in seps
    ensures r.Failure? ==> tmp in seps
    decreases IntMax - index
  {
    if tmp !in seps then Success(index)
    else if index == IntMax then Failure(IndexOutOfBounds)
    else
      var next := index + 1;
      SeparatorLoopAsWritten(text, next, if next < |text| then text[next] else tmp, seps)
  }

  /** When a separator run reaches the end of the text, the program's separator
      loop returns no run: the index climbs to IntMax, wraps, and `charAt`
      throws. */
  lemma {:induction false} TrailingSeparatorsThrow(text: seq<char>, index: nat, tmp: char, seps: set<char>)
    requires index <= IntMax
    requires tmp in seps
    requires forall j :: index < j < |text| ==> text[j] in seps
    ensures SeparatorLoopAsWritten(text, index, tmp, seps) == Failure(IndexOutOfBounds)
    decreases IntMax - index
  {
    if index < IntMax {
      var next := index + 1;
      TrailingSeparatorsThrow(text, next, if next < |text| then text[next] else tmp, seps);
    }
  }

  /** The smallest case: a single space with the space as a separator. */
  lemma SingleSpaceThrows()
    ensures SeparatorLoopAsWritten(" ", 0, ' ', {' '}) == Failure(IndexOutOfBounds)
  {
    TrailingSeparatorsThrow(" ", 0, ' ', {' '});
  }

  /** Where a separator run stops before the end of the text, the loop as
      written exits where the bounded scanner ends the run. */
  lemma {:induction false} SeparatorLoopAgreesInside(text: seq<char>, index: nat, seps: set<char>)
    requires index < |text| <= IntMax
    requires text[index] in seps
    requires RunEnd(text, index, true, seps) < |text|
    ensures SeparatorLoopAsWritten(text, index, text[index], seps)
            == Success(RunEnd(text, index, true, seps))
    decreases |text| - index
  {
    var next := index + 1;
    assert RunEnd(text, index, true, seps) == RunEnd(text, next, true, seps);
    if text[next] in seps {
      SeparatorLoopAgreesInside(text, next, seps);
    }
  }

  /** The scanner exactly as the program writes it: the word loop is guarded
      by the end of the text, the separator loop is not. */
  function ScanAsWritten(text: seq<char>, pos: nat, seps: set<char>): (r: Result<seq<char>, ScanError>)
    requires pos < |text| <= IntMax
    ensures r.Success? ==> 0 < |r.value| && pos + |r.value| <= |text| && r.value == text[pos..pos + |r.value|]
    ensures r.Failure? ==> text[pos] in seps
  {
    if text[pos] in seps then
      match SeparatorLoopAsWritten(text, pos, text[pos], seps)
      case Failure(e) => Failure(e)
      case Success(e) => Success(text[pos..e])
    else
      Success(text[pos..RunEnd(text, pos, false, seps)])
  }

  /** The bounded scan ends where RunEnd does. */
  lemma ScanByRunEnd(text: seq<char>, pos: nat, seps: set<char>)
    requires pos < |text|
    ensures pos + |Scan(text, pos, seps)| == RunEnd(text, pos, text[pos] in seps, seps)
  {
    RunEndStops(text, pos, text[pos] in seps, seps);
    ScanIsMaximal(text, pos, seps);
    var e := RunEnd(text, pos, text[pos] in seps, seps);
    assert IsMaximalRun(text, pos, seps, text[pos..e]);
    ScanUnique(text, pos, seps, text[pos..e]);
  }

  /** The program's scanner throws exactly when it starts inside a separator
      run that reaches the end of the text; otherwise it returns the maximal
      run, as the bounded scanner does. */
  lemma ScanAsWrittenCases(text: seq<char>, pos: nat, seps: set<char>)
    requires pos < |text| <= IntMax
    ensures ScanAsWritten(text, pos, seps)
            == if text[pos] in seps && pos + |Scan(text, pos, seps)| == |text|
               then Failure(IndexOutOfBounds)
               else Success(Scan(text, pos, seps))
  {
    var inSep := text[pos] in seps;
    ScanByRunEnd(text, pos, seps);
    RunEndStops(text, pos, inSep, seps);
    if inSep {
      if RunEnd(text, pos, true, seps) == |text| {
        TrailingSeparatorsThrow(text, pos, text[pos], seps);
      } else {
        SeparatorLoopAgreesInside(text, pos, seps);
      }
    }
  }
}
