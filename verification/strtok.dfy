/** `strtok` from vid6: split off the token before the first delimiter and
    advance the caller's string past that delimiter. Strings are sequences
    of characters, so the Rust code's UTF-8 byte offsets become indices. */
module Strtok {
  import opened Optional

  /** `str::find` with a single character: the first index holding `d`. */
  function Find(s: string, d: char): (r: Option<nat>)
    ensures r.None? <==> d !in s
    ensures r.Some? ==> r.value < |s| && s[r.value] == d && d !in s[..r.value]
  {
    if |s| == 0 then None
    else if s[0] == d then Some(0)
    else
      match Find(s[1..], d)
      case None => None
      case Some(i) =>
        assert s[..i + 1] == [s[0]] + s[1..][..i];
        Some(i + 1)
  }

  /** `strtok(&mut s, delimiter)`: returns the pair (token, new value of `s`). */
  function Strtok(s: string, delimiter: char): (r: (string, string))
    ensures delimiter !in r.0
    ensures delimiter in s ==> r.0 + [delimiter] + r.1 == s
    ensures delimiter !in s ==> r.0 == s && r.1 == []
  {
    match Find(s, delimiter)
    case Some(i) =>
      assert s == s[..i] + [delimiter] + s[i + 1..];
      (s[..i], s[i + 1..])
    case None => (s, [])
  }

  /** The token and the remainder are determined by the reconstruction
      property: any delimiter-free prefix followed by the delimiter is
      exactly what `strtok` splits off. */
  lemma StrtokUnique(s: string, delimiter: char, token: string, rest: string)
    requires delimiter !in token && s == token + [delimiter] + rest
    ensures Strtok(s, delimiter) == (token, rest)
  {
    var r := Strtok(s, delimiter);
    assert s[|token|] == delimiter;
    assert delimiter in s;
    assert r.0 == s[..|r.0|] == token;
    assert r.1 == s[|token| + 1..] == rest;
  }

  /** The unit tests `it_works` and `it_works2`. */
  lemma HelloWorld()
    ensures Strtok("hello world", ' ') == ("hello", "world")
  {
    StrtokUnique("hello world", ' ', "hello", "world");
  }

  /** An empty string yields an empty token and stays empty. */
  lemma EmptyStaysEmpty(delimiter: char)
    ensures Strtok([], delimiter) == ([], [])
  {
  }
}
