/** Searching and splitting strings, as Python's `str.split(sep)` does. */
module Text {
  import opened Wrappers

  /** The text t occurs in s starting at index i. */
  predicate TextAt(s: string, i: nat, t: string) {
    i + |t| <= |s| && s[i..i + |t|] == t
  }

  /** The first index at or after i where sep occurs in s. */
  function FindFrom(s: string, sep: string, i: nat): (r: Option<nat>)
    ensures r.Some? ==> i <= r.value && TextAt(s, r.value, sep)
    ensures r.Some? ==> forall j :: i <= j < r.value ==> !TextAt(s, j, sep)
    ensures r.None? ==> forall j :: i <= j ==> !TextAt(s, j, sep)
    decreases |s| - i
  {
    if i + |sep| > |s| then None
    else if TextAt(s, i, sep) then Some(i)
    else FindFrom(s, sep, i + 1)
  }

  /** The pieces of s between the occurrences of sep, found left to right without
      overlap. */
  function Split(s: string, sep: string): (parts: seq<string>)
    requires |sep| > 0
    ensures |parts| >= 1
    ensures forall k, j: nat :: 0 <= k < |parts| ==> !TextAt(parts[k], j, sep)
    decreases |s|
  {
    match FindFrom(s, sep, 0)
    case None => [s]
    case Some(k) =>
      var head := s[..k];
      assert forall j: nat :: TextAt(head, j, sep) ==> TextAt(s, j, sep) by {
        forall j: nat | TextAt(head, j, sep)
          ensures TextAt(s, j, sep)
        {
          assert s[j..j + |sep|] == head[j..j + |sep|];
        }
      }
      var rest := Split(s[k + |sep|..], sep);
      assert forall m :: 1 <= m < |[head] + rest| ==> ([head] + rest)[m] == rest[m - 1];
      [head] + rest
  }

  /** The pieces glued back together with sep between them. */
  function Join(parts: seq<string>, sep: string): string
    requires |parts| >= 1
  {
    if |parts| == 1 then parts[0] else parts[0] + sep + Join(parts[1..], sep)
  }

  /** Splitting loses nothing: joining the pieces gives back the string. */
  lemma {:induction false} JoinSplit(s: string, sep: string)
    requires |sep| > 0
    ensures Join(Split(s, sep), sep) == s
    decreases |s|
  {
    match FindFrom(s, sep, 0)
    case None =>
    case Some(k) =>
      JoinSplit(s[k + |sep|..], sep);
      assert Split(s, sep)[1..] == Split(s[k + |sep|..], sep);
      assert s == s[..k] + s[k..k + |sep|] + s[k + |sep|..];
  }
}
