/** The separator-set builder of the glossary generator (generateElements). */
module Separators {

  /** The characters occurring in `s`, the `entries` of the program's contracts. */
  function Entries(s: seq<char>): set<char>
  {
    set c | c in s
  }

  /** The delimiter string the index builder turns into the separator set. */
  const SeparatorChars: seq<char> := " \t, "

  /** Adds every character of `str` to `strSet`, skipping those already present
      (the library set refuses to add an element twice). */
  method GenerateElements(str: seq<char>, strSet: set<char>) returns (s: set<char>)
    ensures s == strSet + Entries(str)
  {
    s := strSet;
    var i := 0;
    while i < |str|
      invariant 0 <= i <= |str|
      invariant s == strSet + Entries(str[..i])
    {
      assert str[..i + 1] == str[..i] + [str[i]];
      if str[i] !in s {
        s := s + {str[i]};
      }
      i := i + 1;
    }
    assert str[..i] == str;
  }

  /** Builds the separator set from the fixed delimiter string, starting from an
      empty set as the index builder does. */
  method MakeSeparatorSet() returns (s: set<char>)
    ensures s == {' ', '\t', ','}
    ensures forall c :: c in s <==> c in SeparatorChars
  {
    s := GenerateElements(SeparatorChars, {});
    assert SeparatorChars == [' ', '\t', ',', ' '];
  }
}
