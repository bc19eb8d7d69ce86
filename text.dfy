/** The string methods the archive view applies to member paths:
    `str.startswith`, `str.endswith`, `str.rstrip`, `str.split('/', 1)[0]`
    and `str.split('/')`, with `'/'.join` as the partner of the split. */
module Text {

  /** `s.startswith(p)` */
  predicate StartsWith(s: string, p: string) {
    p <= s
  }

  /** `s.endswith(x)` */
  predicate EndsWith(s: string, x: string) {
    |x| <= |s| && s[|s| - |x|..] == x
  }

  /** `t` is a contiguous run of characters inside `s`. */
  ghost predicate Occurs(t: string, s: string) {
    exists i :: 0 <= i <= |s| && t <= s[i..]
  }

  /** `s.rstrip(c)`: the longest prefix of `s` that does not end in `c`
      and after which `s` holds only `c`s. */
  function RStrip(s: string, c: char): (r: string)
    ensures r <= s
    ensures r == [] || r[|r| - 1] != c
    ensures forall i :: |r| <= i < |s| ==> s[i] == c
  {
    if s == [] || s[|s| - 1] != c then s else RStrip(s[..|s| - 1], c)
  }

  /** `s.split('/', 1)[0]`: the text before the first `/`, or all of `s`. */
  function FirstSegment(s: string): (r: string)
    ensures r <= s && '/' !in r
    ensures '/' in s ==> |r| < |s| && s[|r|] == '/'
    ensures '/' !in s ==> r == s
  {
    if s == [] || s[0] == '/' then [] else [s[0]] + FirstSegment(s[1..])
  }

  /** `s.split('/')`: the `/`-separated parts of `s`, at least one. */
  function Split(s: string): (parts: seq<string>)
    ensures |parts| >= 1
    ensures forall i :: 0 <= i < |parts| ==> '/' !in parts[i]
    decreases |s|
  {
    if '/' !in s then [s]
    else
      var head := FirstSegment(s);
      [head] + Split(s[|head| + 1..])
  }

  /** `'/'.join(parts)` */
  function Join(parts: seq<string>): string {
    if parts == [] then []
    else if |parts| == 1 then parts[0]
    else parts[0] + "/" + Join(parts[1..])
  }

  /** Splitting and joining again gives back the path. */
  lemma {:induction false} JoinSplit(s: string)
    ensures Join(Split(s)) == s
    decreases |s|
  {
    if '/' in s {
      var head := FirstSegment(s);
      var tail := s[|head| + 1..];
      JoinSplit(tail);
      assert Split(s) == [head] + Split(tail);
      assert s == head + "/" + tail;
    }
  }

  /** Joining parts that hold no `/` and splitting again gives back the parts. */
  lemma {:induction false} SplitJoin(parts: seq<string>)
    requires |parts| >= 1
    requires forall i :: 0 <= i < |parts| ==> '/' !in parts[i]
    ensures Split(Join(parts)) == parts
  {
    if |parts| == 1 {
      assert Join(parts) == parts[0];
    } else {
      var s := Join(parts);
      var rest := Join(parts[1..]);
      assert s == parts[0] + "/" + rest;
      FirstSegmentBeforeSlash(parts[0], rest);
      assert '/' in s by { assert s[|parts[0]|] == '/'; }
      assert s[|parts[0]| + 1..] == rest;
      SplitJoin(parts[1..]);
    }
  }

  lemma {:induction false} FirstSegmentBeforeSlash(head: string, rest: string)
    requires '/' !in head
    ensures FirstSegment(head + "/" + rest) == head
    decreases |head|
  {
    var s := head + "/" + rest;
    if head != [] {
      assert s[1..] == head[1..] + "/" + rest;
      FirstSegmentBeforeSlash(head[1..], rest);
    }
  }
}
