/** The heuristic station-code scan of `VgosDBReader.get_stations`: which
    parts of a path it reports. Python's `re` is modelled only for the two
    patterns the scan uses, `^[A-Z]{2,8}$` with `re.match` and `[A-Z]{2,8}`
    with `re.findall`. */
module Stations {
  import opened Text

  /** `[A-Z]`: an ASCII capital letter. */
  predicate IsCapital(c: char) {
    'A' <= c <= 'Z'
  }

  /** The whole of `t` is two to eight ASCII capital letters. */
  predicate IsStationCode(t: string) {
    2 <= |t| <= 8 && forall i :: 0 <= i < |t| ==> IsCapital(t[i])
  }

  /** `re.match(r'^[A-Z]{2,8}$', part)` as Python evaluates it: `$` also
      matches just before a newline that ends the string. */
  predicate AnchoredMatchAsWritten(part: string) {
    IsStationCode(part)
    || (|part| >= 1 && part[|part| - 1] == '\n' && IsStationCode(part[..|part| - 1]))
  }

  /** How many characters `[A-Z]{2,8}` would take at the start of `s` if it
      matched there: the leading run of capitals, at most `cap` long. */
  function CapitalRun(s: string, cap: nat): (n: nat)
    ensures n <= cap && n <= |s|
    ensures forall i :: 0 <= i < n ==> IsCapital(s[i])
    ensures n < cap && n < |s| ==> !IsCapital(s[n])
  {
    if cap == 0 || s == [] || !IsCapital(s[0]) then 0 else 1 + CapitalRun(s[1..], cap - 1)
  }

  /** `re.findall(r'[A-Z]{2,8}', s)`: scanning left to right, a greedy match
      of up to eight capitals wherever at least two start, otherwise one
      character further on. */
  function FindAll(s: string): (found: seq<string>)
    ensures forall t :: t in found ==> IsStationCode(t) && Occurs(t, s)
    decreases |s|
  {
    if s == [] then []
    else
      var n := CapitalRun(s, 8);
      if n >= 2 then
        OccursInSuffix(s, n);
        assert Occurs(s[..n], s) by { assert s[..n] <= s[0..]; }
        [s[..n]] + FindAll(s[n..])
      else
        OccursInSuffix(s, 1);
        FindAll(s[1..])
  }

  lemma OccursInSuffix(s: string, k: nat)
    requires k <= |s|
    ensures forall t :: Occurs(t, s[k..]) ==> Occurs(t, s)
  {
  }

  /** A part that is itself a station code is found by the scan, whole. */
  lemma {:induction false} FindAllWholeCode(t: string)
    requires IsStationCode(t)
    ensures FindAll(t) == [t]
  {
    WholeRun(t, 8);
    assert t[..|t|] == t && t[|t|..] == [];
  }

  lemma WholeRun(s: string, cap: nat)
    requires |s| <= cap
    requires forall i :: 0 <= i < |s| ==> IsCapital(s[i])
    ensures CapitalRun(s, cap) == |s|
  {
  }

  /** On a string that ends in a non-capital, the run `[A-Z]{2,8}` takes at
      any start stays inside that string, whatever follows it. */
  lemma {:induction false} RunInsidePrefix(a: string, rest: string, cap: nat)
    requires a != [] && !IsCapital(a[|a| - 1])
    ensures CapitalRun(a + rest, cap) == CapitalRun(a, cap) < |a|
    decreases |a|
  {
    if cap != 0 && IsCapital(a[0]) {
      assert (a + rest)[1..] == a[1..] + rest;
      RunInsidePrefix(a[1..], rest, cap - 1);
    }
  }

  /** A run of at most `cap` capitals followed by the end or a non-capital
      is taken whole. */
  lemma {:induction false} RunStops(t: string, b: string, cap: nat)
    requires |t| <= cap && forall i :: 0 <= i < |t| ==> IsCapital(t[i])
    requires b == [] || !IsCapital(b[0])
    ensures CapitalRun(t + b, cap) == |t|
    decreases |t|
  {
    if t != [] {
      assert (t + b)[1..] == t[1..] + b;
      RunStops(t[1..], b, cap - 1);
    }
  }

  /** The scan never runs across a non-capital: the matches in `a + rest`
      are those in `a` followed by those in `rest`. */
  lemma {:induction false} FindAllSplits(a: string, rest: string)
    requires a == [] || !IsCapital(a[|a| - 1])
    ensures FindAll(a + rest) == FindAll(a) + FindAll(rest)
    decreases |a|
  {
    if a == [] {
      assert a + rest == rest;
    } else {
      var s := a + rest;
      RunInsidePrefix(a, rest, 8);
      var n := CapitalRun(a, 8);
      if n >= 2 {
        assert s[..n] == a[..n];
        assert s[n..] == a[n..] + rest;
        FindAllSplits(a[n..], rest);
      } else {
        assert s[1..] == a[1..] + rest;
        FindAllSplits(a[1..], rest);
      }
    }
  }

  /** A maximal run of two to eight capitals is found: a station code with
      no capital just before or just after it is a match of the scan. */
  lemma FindAllMaximalRun(a: string, t: string, b: string)
    requires IsStationCode(t)
    requires a == [] || !IsCapital(a[|a| - 1])
    requires b == [] || !IsCapital(b[0])
    ensures t in FindAll(a + t + b)
  {
    assert a + t + b == a + (t + b);
    FindAllSplits(a, t + b);
    RunStops(t, b, 8);
    assert (t + b)[..|t|] == t;
  }

  /** `t` is a station code at position `i` of `part`, with no capital just
      before or just after it. */
  ghost predicate MaximalRunAt(part: string, i: int, t: string) {
    && IsStationCode(t)
    && 0 <= i && i + |t| <= |part| && part[i..i + |t|] == t
    && (i == 0 || !IsCapital(part[i - 1]))
    && (i + |t| == |part| || !IsCapital(part[i + |t|]))
  }

  /** Some `/`-part of `path` holds `t` as a maximal run. */
  ghost predicate RunInPath(path: string, t: string) {
    exists k, i :: 0 <= k < |Split(path)| && MaximalRunAt(Split(path)[k], i, t)
  }

  /** Every maximal run of two to eight capitals in a part is found. */
  lemma RunFound(part: string, i: int, t: string)
    requires MaximalRunAt(part, i, t)
    ensures t in FindAll(part)
  {
    var a, b := part[..i], part[i + |t|..];
    assert part == a + t + b;
    FindAllMaximalRun(a, t, b);
  }

  /** The codes the scan adds for one part, as written:
      `if re.match(r'^[A-Z]{2,8}$', part): stations.add(part)` followed by
      `stations.update(re.findall(r'[A-Z]{2,8}', part))`. */
  function PartCodesAsWritten(part: string): (codes: set<string>)
    ensures PartCodes(part) <= codes
    ensures forall t :: t in codes && t !in PartCodes(part) ==>
      t == part && !IsStationCode(part) && |part| >= 1 && part[|part| - 1] == '\n'
  {
    (if AnchoredMatchAsWritten(part) then {part} else {}) + (set t | t in FindAll(part))
  }

  /** As written, a part ending in a newline is reported with the newline:
      the scan reports "AB\n", which is not a station code. */
  lemma AsWrittenReportsNewline()
    ensures "AB\n" in PartCodesAsWritten("AB\n")
    ensures !IsStationCode("AB\n")
  {
  }

  /** The codes the scan adds for one part with the anchored match applied
      to the whole part, as the comment beside it intends. */
  function PartCodes(part: string): (codes: set<string>)
    ensures forall t :: t in codes ==> IsStationCode(t) && Occurs(t, part)
    ensures codes == set t | t in FindAll(part)
  {
    if IsStationCode(part) then
      FindAllWholeCode(part);
      assert Occurs(part, part) by { assert part <= part[0..]; }
      {part} + (set t | t in FindAll(part))
    else
      set t | t in FindAll(part)
  }

  /** The codes found in all the given parts. */
  function PartsCodes(parts: seq<string>): set<string>
    decreases |parts|
  {
    if parts == [] then {} else PartsCodes(parts[..|parts| - 1]) + PartCodes(parts[|parts| - 1])
  }

  lemma PartsCodesAppend(parts: seq<string>, part: string)
    ensures PartsCodes(parts + [part]) == PartsCodes(parts) + PartCodes(part)
  {
  }

  /** The codes found in the `/`-separated parts of a path. */
  function PathCodes(path: string): set<string> {
    PartsCodes(Split(path))
  }

  /** One round of the inner loop adds the codes of one part. */
  lemma PartAdded(prior: set<string>, part: string)
    ensures (if IsStationCode(part) then prior + {part} else prior) + (set t | t in FindAll(part))
      == prior + PartCodes(part)
  {
    if IsStationCode(part) {
      assert part in PartCodes(part);
    }
  }

  /** The codes of the first `k + 1` parts. */
  lemma NextPrefix(parts: seq<string>, k: int)
    requires 0 <= k < |parts|
    ensures PartsCodes(parts[..k + 1]) == PartsCodes(parts[..k]) + PartCodes(parts[k])
  {
    assert parts[..k + 1] == parts[..k] + [parts[k]];
    PartsCodesAppend(parts[..k], parts[k]);
  }

  /** The inner loop of the scan: adds the codes of each part of `path`. */
  method AddPathCodes(found: set<string>, path: string) returns (result: set<string>)
    ensures result == found + PathCodes(path)
  {
    result := found;
    var parts := Split(path);
    for k := 0 to |parts|
      invariant result == found + PartsCodes(parts[..k])
    {
      var part := parts[k];
      PartAdded(result, part);
      NextPrefix(parts, k);
      if IsStationCode(part) {
        result := result + {part};
      }
      result := result + (set t | t in FindAll(part));
    }
    assert parts[..|parts|] == parts;
  }

  /** Every reported code is a station code lying inside one part. */
  lemma {:induction false} PartsCodesSound(parts: seq<string>, t: string)
    requires t in PartsCodes(parts)
    ensures IsStationCode(t)
    ensures exists k :: 0 <= k < |parts| && Occurs(t, parts[k])
    decreases |parts|
  {
    var last := |parts| - 1;
    if t in PartCodes(parts[last]) {
      assert Occurs(t, parts[last]);
    } else {
      PartsCodesSound(parts[..last], t);
      var k :| 0 <= k < |parts[..last]| && Occurs(t, parts[..last][k]);
      assert parts[..last][k] == parts[k];
    }
  }

  /** Every code the scan finds in any part is reported; in particular a
      part that is itself a station code is reported whole. */
  lemma {:induction false} PartsCodesComplete(parts: seq<string>, k: int)
    requires 0 <= k < |parts|
    ensures forall t :: t in FindAll(parts[k]) ==> t in PartsCodes(parts)
    ensures IsStationCode(parts[k]) ==> parts[k] in PartsCodes(parts)
    decreases |parts|
  {
    var last := |parts| - 1;
    if k < last {
      assert parts[..last][k] == parts[k];
      PartsCodesComplete(parts[..last], k);
    } else if IsStationCode(parts[k]) {
      FindAllWholeCode(parts[k]);
      assert parts[k] in FindAll(parts[k]);
    }
  }

  /** Every maximal run of two to eight capitals in a part of a path is
      reported for that path. */
  lemma PathReportsRuns(path: string, t: string)
    requires RunInPath(path, t)
    ensures t in PathCodes(path)
  {
    var parts := Split(path);
    var k, i :| 0 <= k < |parts| && MaximalRunAt(parts[k], i, t);
    RunFound(parts[k], i, t);
    PartsCodesComplete(parts, k);
  }

  /** The same two facts for the parts of a path. */
  lemma PathCodesSpec(path: string, t: string)
    ensures t in PathCodes(path) ==> IsStationCode(t) && exists part :: part in Split(path) && Occurs(t, part)
    ensures (exists part :: part in Split(path) && t in FindAll(part)) ==> t in PathCodes(path)
  {
    var parts := Split(path);
    if t in PathCodes(path) {
      PartsCodesSound(parts, t);
      var k :| 0 <= k < |parts| && Occurs(t, parts[k]);
      assert parts[k] in parts;
    }
    if part :| part in parts && t in FindAll(part) {
      var k :| 0 <= k < |parts| && parts[k] == part;
      PartsCodesComplete(parts, k);
    }
  }
}
