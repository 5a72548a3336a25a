/**
 * Path segmentation (`splitPath` in route.js): a request or route path
 * becomes the sequence of its `/`-separated pieces.
 */
module Paths {
  import opened Wrappers

  /** Position of the first `/` in `s`, if there is one. */
  function IndexOfSlash(s: string): (r: Option<nat>)
    ensures r.Some? ==> r.value < |s| && s[r.value] == '/' && '/' !in s[..r.value]
    ensures r.None? <==> '/' !in s
  {
    if s == [] then None
    else if s[0] == '/' then Some(0)
    else match IndexOfSlash(s[1..])
      case None => None
      case Some(i) => Some(i + 1)
  }

  /** `parts.join("/")`. */
  function Join(parts: seq<string>): string
  {
    if |parts| == 0 then ""
    else if |parts| == 1 then parts[0]
    else parts[0] + "/" + Join(parts[1..])
  }

  /**
   * `s.split("/")`: never empty (the empty string splits into one empty
   * piece), no piece holds a `/`, and joining the pieces gives `s` back.
   */
  function Split(s: string): (r: seq<string>)
    ensures |r| >= 1
    ensures forall i :: 0 <= i < |r| ==> '/' !in r[i]
    ensures Join(r) == s
    decreases |s|
  {
    match IndexOfSlash(s)
    case None => [s]
    case Some(i) =>
      var rest := Split(s[i + 1..]);
      assert s == s[..i] + "/" + s[i + 1..];
      [s[..i]] + rest
  }

  /** The path with one leading and one trailing `/` removed, where present. */
  function TrimSlashes(path: string): string
  {
    var p := if |path| > 0 && path[0] == '/' then path[1..] else path;
    if |p| > 0 && p[|p| - 1] == '/' then p[..|p| - 1] else p
  }

  /**
   * `splitPath`: the root path alone gives no segments; any other path is
   * trimmed of one leading and one trailing slash and split on `/`, keeping
   * empty pieces.
   */
  function SplitPath(path: string): (r: seq<string>)
    ensures r == [] <==> path == "/"
    ensures forall i :: 0 <= i < |r| ==> '/' !in r[i]
    ensures path != "/" ==> Join(r) == TrimSlashes(path)
  {
    if path == "/" then [] else Split(TrimSlashes(path))
  }

  lemma {:induction false} IndexOfSlashAfter(a: string, b: string)
    requires '/' !in a
    ensures IndexOfSlash(a + "/" + b) == Some(|a|)
  {
    if a != [] {
      assert (a + "/" + b)[1..] == a[1..] + "/" + b;
      IndexOfSlashAfter(a[1..], b);
    }
  }

  /** Splitting is the inverse of joining slash-free pieces. */
  lemma {:induction false} SplitJoin(parts: seq<string>)
    requires |parts| >= 1
    requires forall i :: 0 <= i < |parts| ==> '/' !in parts[i]
    ensures Split(Join(parts)) == parts
  {
    if |parts| > 1 {
      var s := Join(parts);
      IndexOfSlashAfter(parts[0], Join(parts[1..]));
      assert s[|parts[0]| + 1..] == Join(parts[1..]);
      assert s[..|parts[0]|] == parts[0];
      SplitJoin(parts[1..]);
    }
  }

  lemma {:induction false} JoinEndsWithLast(parts: seq<string>)
    requires |parts| >= 1 && parts[|parts| - 1] != ""
    ensures |Join(parts)| > 0
    ensures Join(parts)[|Join(parts)| - 1] == parts[|parts| - 1][|parts[|parts| - 1]| - 1]
  {
    if |parts| > 1 {
      JoinEndsWithLast(parts[1..]);
    }
  }

  /**
   * Round trip: a path written as `/` followed by slash-free segments whose
   * last one is non-empty splits back into exactly those segments.
   */
  lemma PathRoundTrip(segments: seq<string>)
    requires |segments| >= 1 && segments[|segments| - 1] != ""
    requires forall i :: 0 <= i < |segments| ==> '/' !in segments[i]
    ensures SplitPath("/" + Join(segments)) == segments
  {
    var j := Join(segments);
    JoinEndsWithLast(segments);
    var last := segments[|segments| - 1];
    assert last[|last| - 1] in last;
    assert j[|j| - 1] != '/';
    assert ("/" + j)[1..] == j;
    assert TrimSlashes("/" + j) == j;
    SplitJoin(segments);
  }
}
