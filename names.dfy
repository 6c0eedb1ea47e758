/**
 * `splitOnce` of index.js: split an environment variable name at its
 * first '_'. The source does it with `String.prototype.split`, taking the
 * first component as the head and joining the remaining components back
 * together with '_'; `Split` and `Join` model those two library calls for
 * a one-character separator.
 */
module Names {
  import opened Wrappers

  /** The default (and only used) `search` argument of `splitOnce`. */
  const SEPARATOR: char := '_'

  /**
   * `s.split(sep)`: the maximal runs between occurrences of `sep`, so an
   * empty text gives one empty component and every separator starts a new one.
   */
  function Split(s: string, sep: char): (parts: seq<string>)
    ensures |parts| >= 1
    ensures forall k :: 0 <= k < |parts| ==> sep !in parts[k]
    decreases |s|
  {
    if |s| == 0 then [""]
    else if s[0] == sep then [""] + Split(s[1..], sep)
    else
      var rest := Split(s[1..], sep);
      [[s[0]] + rest[0]] + rest[1..]
  }

  /** `parts.join(sep)`. */
  function Join(parts: seq<string>, sep: char): string
    decreases |parts|
  {
    if |parts| == 0 then ""
    else if |parts| == 1 then parts[0]
    else parts[0] + [sep] + Join(parts[1..], sep)
  }

  /** Joining the components of a split gives back the text. */
  lemma {:induction false} JoinSplit(s: string, sep: char)
    ensures Join(Split(s, sep), sep) == s
    decreases |s|
  {
    if |s| > 0 {
      var rest := Split(s[1..], sep);
      JoinSplit(s[1..], sep);
      if s[0] == sep {
        assert Split(s, sep) == [""] + rest;
        assert ([""] + rest)[1..] == rest;
      } else {
        assert Split(s, sep) == [[s[0]] + rest[0]] + rest[1..];
        if |rest| > 1 {
          assert ([[s[0]] + rest[0]] + rest[1..])[1..] == rest[1..];
        }
      }
    }
  }

  /** A split has more than one component exactly when the separator occurs. */
  lemma {:induction false} SplitHasSeveralParts(s: string, sep: char)
    ensures |Split(s, sep)| > 1 <==> sep in s
    decreases |s|
  {
    if |s| > 0 {
      SplitHasSeveralParts(s[1..], sep);
      assert s == [s[0]] + s[1..];
    }
  }

  /** Splitting a text that starts with a separator-free head and a separator. */
  lemma {:induction false} SplitAfterHead(head: string, rest: string, sep: char)
    requires sep !in head
    ensures Split(head + [sep] + rest, sep) == [head] + Split(rest, sep)
    decreases |head|
  {
    var s := head + [sep] + rest;
    if |head| == 0 {
      assert s[1..] == rest;
    } else {
      assert s[1..] == head[1..] + [sep] + rest;
      SplitAfterHead(head[1..], rest, sep);
      assert [head[0]] + head[1..] == head;
    }
  }

  /**
   * `splitOnce(data)`: the first component and the rest re-joined with '_',
   * or nothing when the split yields a single component.
   */
  function SplitOnce(data: string): Option<(string, string)> {
    var components := Split(data, SEPARATOR);
    if |components| > 1 then Some((components[0], Join(components[1..], SEPARATOR)))
    else None
  }

  /** `splitOnce` returns nothing exactly when the name contains no '_'. */
  lemma SplitOnceNone(data: string)
    ensures SplitOnce(data).None? <==> SEPARATOR !in data
  {
    SplitHasSeveralParts(data, SEPARATOR);
  }

  /** A split name is its head, '_' and its rest, and the head holds no '_'. */
  lemma SplitOnceRoundTrip(data: string)
    requires SplitOnce(data).Some?
    ensures SEPARATOR !in SplitOnce(data).value.0
    ensures SplitOnce(data).value.0 + [SEPARATOR] + SplitOnce(data).value.1 == data
  {
    var components := Split(data, SEPARATOR);
    JoinSplit(data, SEPARATOR);
    assert Join(components, SEPARATOR)
        == components[0] + [SEPARATOR] + Join(components[1..], SEPARATOR);
  }

  /** The other direction: a '_'-free head, '_' and any rest split back into that head and rest. */
  lemma SplitOnceOfJoined(head: string, rest: string)
    requires SEPARATOR !in head
    ensures SplitOnce(head + [SEPARATOR] + rest) == Some((head, rest))
  {
    SplitAfterHead(head, rest, SEPARATOR);
    var components := [head] + Split(rest, SEPARATOR);
    assert components[1..] == Split(rest, SEPARATOR);
    JoinSplit(rest, SEPARATOR);
  }

  /** Distinct names never split into the same head and rest. */
  lemma SplitOnceInjective(a: string, b: string)
    requires SplitOnce(a).Some? && SplitOnce(a) == SplitOnce(b)
    ensures a == b
  {
    SplitOnceRoundTrip(a);
    SplitOnceRoundTrip(b);
  }
}
