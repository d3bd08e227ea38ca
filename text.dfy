/** String helpers the model needs from Go's strings package: the first
    index of a character, splitting on a separator, and case-insensitive
    comparison. */
module Text {
  import opened Base

  /** strings.IndexByte: the first position of c in s. */
  function IndexOf(s: string, c: char): (r: Option<nat>)
    ensures r.Some? ==> r.value < |s| && s[r.value] == c && c !in s[..r.value]
    ensures r.None? <==> c !in s
  {
    if s == [] then None
    else if s[0] == c then Some(0)
    else
      var r := IndexOf(s[1..], c);
      assert s == [s[0]] + s[1..];
      if r.None? then None
      else
        assert s[..r.value + 1] == [s[0]] + s[1..][..r.value];
        Some(r.value + 1)
  }

  lemma IndexOfAfterWord(w: string, c: char, rest: string)
    requires c !in w
    ensures IndexOf(w + [c] + rest, c) == Some(|w|)
  {
    var s := w + [c] + rest;
    assert s[|w|] == c;
    assert s[..|w|] == w;
  }

  /** strings.Split(s, " "): the pieces between the spaces; an empty string is one empty piece. */
  function Words(s: string): (r: seq<string>)
    ensures |r| > 0
    decreases |s|
  {
    match IndexOf(s, ' ')
    case None => [s]
    case Some(i) => [s[..i]] + Words(s[i + 1..])
  }

  lemma {:induction false} WordsAfterWord(w: string, rest: string)
    requires ' ' !in w
    ensures Words(w + " " + rest) == [w] + Words(rest)
  {
    var s := w + " " + rest;
    IndexOfAfterWord(w, ' ', rest);
    assert s[..|w|] == w;
    assert s[|w| + 1..] == rest;
  }

  lemma WordsOfWord(w: string)
    requires ' ' !in w
    ensures Words(w) == [w]
  {
  }

  /** ASCII lower case; every other character is left alone. */
  function Lower(c: char): char
  {
    if 'A' <= c <= 'Z' then (c as int + 32) as char else c
  }

  /** strings.EqualFold, restricted to ASCII letters. For the comparisons the
      model makes (against "Bearer") this is exact: no non-ASCII character
      folds to any of the letters b, e, a, r. */
  predicate EqualFold(a: string, b: string)
  {
    |a| == |b| && forall i :: 0 <= i < |a| ==> Lower(a[i]) == Lower(b[i])
  }
}
