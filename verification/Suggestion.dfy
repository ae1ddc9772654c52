/** Edit distance and "did you mean" suggestions of the command-line crate. */
module Suggestion {
  import opened Prelude

  const MAX_SUGGESTION_BYTES: nat := 128

  // --------------------------------------------------------------------------
  // Edit scripts: the meaning of a distance
  // --------------------------------------------------------------------------

  /** One step that consumes bytes of the left word and produces bytes of the right word. */
  datatype Edit =
    | Align(from: byte, to: byte)
    | Delete(from: byte)
    | Insert(to: byte)

  type Script = seq<Edit>

  function Cost(edit: Edit): nat {
    if edit.Align? && edit.from == edit.to then 0 else 1
  }

  function Total(script: Script): nat {
    if script == [] then 0 else Total(script[..|script| - 1]) + Cost(script[|script| - 1])
  }

  function Source(script: Script): Bytes {
    if script == [] then []
    else
      var edit := script[|script| - 1];
      Source(script[..|script| - 1]) + (if edit.Insert? then [] else [edit.from])
  }

  function Target(script: Script): Bytes {
    if script == [] then []
    else
      var edit := script[|script| - 1];
      Target(script[..|script| - 1]) + (if edit.Delete? then [] else [edit.to])
  }

  ghost predicate Rewrites(script: Script, a: Bytes, b: Bytes) {
    Source(script) == a && Target(script) == b
  }

  /** `distance` is the least cost of any script from `a` to `b`. */
  ghost predicate IsDistance(distance: nat, a: Bytes, b: Bytes) {
    && (exists script :: Rewrites(script, a, b) && Total(script) == distance)
    && (forall script :: Rewrites(script, a, b) ==> distance <= Total(script))
  }

  // --------------------------------------------------------------------------
  // The recurrence behind the table
  // --------------------------------------------------------------------------

  function Init(s: Bytes): Bytes
    requires s != []
  {
    s[..|s| - 1]
  }

  function Last(s: Bytes): byte
    requires s != []
  {
    s[|s| - 1]
  }

  function Distance(a: Bytes, b: Bytes): nat
    decreases |a| + |b|
  {
    if a == [] then |b|
    else if b == [] then |a|
    else
      var substitution := Distance(Init(a), Init(b)) + if Last(a) == Last(b) then 0 else 1;
      Min(Min(substitution, Distance(Init(a), b) + 1), Distance(a, Init(b)) + 1)
  }

  lemma SnocScript(script: Script, edit: Edit)
    ensures Total(script + [edit]) == Total(script) + Cost(edit)
    ensures Source(script + [edit]) == Source(script) + (if edit.Insert? then [] else [edit.from])
    ensures Target(script + [edit]) == Target(script) + (if edit.Delete? then [] else [edit.to])
  {
    assert (script + [edit])[..|script|] == script;
  }

  lemma SnocWord(a: Bytes)
    requires a != []
    ensures Init(a) + [Last(a)] == a
  {
  }

  /** Some script reaches the value of the recurrence. */
  lemma {:induction false} BestScript(a: Bytes, b: Bytes) returns (script: Script)
    ensures Rewrites(script, a, b) && Total(script) == Distance(a, b)
    decreases |a| + |b|
  {
    if a == [] && b == [] {
      script := [];
    } else if a == [] {
      var rest := BestScript(a, Init(b));
      script := rest + [Insert(Last(b))];
      SnocScript(rest, Insert(Last(b)));
      SnocWord(b);
    } else if b == [] {
      var rest := BestScript(Init(a), b);
      script := rest + [Delete(Last(a))];
      SnocScript(rest, Delete(Last(a)));
      SnocWord(a);
    } else {
      SnocWord(a);
      SnocWord(b);
      if Distance(a, b) == Distance(Init(a), b) + 1 {
        var rest := BestScript(Init(a), b);
        script := rest + [Delete(Last(a))];
        SnocScript(rest, Delete(Last(a)));
      } else if Distance(a, b) == Distance(a, Init(b)) + 1 {
        var rest := BestScript(a, Init(b));
        script := rest + [Insert(Last(b))];
        SnocScript(rest, Insert(Last(b)));
      } else {
        var rest := BestScript(Init(a), Init(b));
        script := rest + [Align(Last(a), Last(b))];
        SnocScript(rest, Align(Last(a), Last(b)));
      }
    }
  }

  /** One edit at the end changes the recurrence by at most its cost. */
  lemma DistanceStep(a: Bytes, b: Bytes, x: byte, y: byte)
    ensures Distance(a + [x], b + [y]) <= Distance(a, b) + Cost(Align(x, y))
    ensures Distance(a + [x], b) <= Distance(a, b) + 1
    ensures Distance(a, b + [y]) <= Distance(a, b) + 1
  {
    assert Init(a + [x]) == a && Init(b + [y]) == b;
    assert Distance(a, []) == |a| && Distance([], b) == |b|;
  }

  lemma ExtendBound(rest: Script, edit: Edit)
    requires Distance(Source(rest), Target(rest)) <= Total(rest)
    ensures Distance(Source(rest + [edit]), Target(rest + [edit])) <= Total(rest + [edit])
  {
    SnocScript(rest, edit);
    EditBound(Source(rest), Target(rest), Total(rest), edit);
  }

  lemma EditBound(a: Bytes, b: Bytes, total: nat, edit: Edit)
    requires Distance(a, b) <= total
    ensures Distance(a + (if edit.Insert? then [] else [edit.from]), b + (if edit.Delete? then [] else [edit.to]))
            <= total + Cost(edit)
  {
    assert a + [] == a && b + [] == b;
    match edit
    case Align(x, y) => DistanceStep(a, b, x, y);
    case Delete(x) => DistanceStep(a, b, x, x);
    case Insert(y) => DistanceStep(a, b, y, y);
  }

  /** No script is cheaper than the value of the recurrence. */
  lemma {:induction false} NoCheaperScript(script: Script)
    ensures Distance(Source(script), Target(script)) <= Total(script)
  {
    if script != [] {
      var rest, edit := script[..|script| - 1], script[|script| - 1];
      NoCheaperScript(rest);
      ExtendBound(rest, edit);
      assert script == rest + [edit];
    }
  }

  lemma DistanceIsLeast(a: Bytes, b: Bytes)
    ensures IsDistance(Distance(a, b), a, b)
  {
    var best := BestScript(a, b);
    forall script | Rewrites(script, a, b)
      ensures Distance(a, b) <= Total(script)
    {
      NoCheaperScript(script);
    }
  }

  // --------------------------------------------------------------------------
  // The distance is a metric
  // --------------------------------------------------------------------------

  function Reversed(edit: Edit): Edit {
    match edit
    case Align(from, to) => Align(to, from)
    case Delete(from) => Insert(from)
    case Insert(to) => Delete(to)
  }

  lemma {:induction false} ReverseScript(script: Script) returns (back: Script)
    ensures Rewrites(back, Target(script), Source(script)) && Total(back) == Total(script)
  {
    if script == [] {
      back := [];
    } else {
      var edit := script[|script| - 1];
      var rest := ReverseScript(script[..|script| - 1]);
      back := rest + [Reversed(edit)];
      SnocScript(rest, Reversed(edit));
    }
  }

  /** Two scripts that meet in the middle compose without costing more. */
  lemma {:induction false} ComposeScripts(s: Script, t: Script) returns (u: Script)
    requires Target(s) == Source(t)
    ensures Rewrites(u, Source(s), Target(t)) && Total(u) <= Total(s) + Total(t)
    decreases |s| + |t|
  {
    if s == [] && t == [] {
      u := [];
    } else if s != [] && s[|s| - 1].Delete? {
      var rest := ComposeScripts(s[..|s| - 1], t);
      u := rest + [s[|s| - 1]];
      SnocScript(rest, s[|s| - 1]);
    } else if t != [] && t[|t| - 1].Insert? {
      var rest := ComposeScripts(s, t[..|t| - 1]);
      u := rest + [t[|t| - 1]];
      SnocScript(rest, t[|t| - 1]);
    } else {
      assert s != [] && t != [];
      var x, y := s[|s| - 1], t[|t| - 1];
      assert x.to == Last(Target(s)) && y.from == Last(Source(t));
      assert Target(s[..|s| - 1]) == Init(Target(s)) && Source(t[..|t| - 1]) == Init(Source(t));
      var rest := ComposeScripts(s[..|s| - 1], t[..|t| - 1]);
      if x.Align? && y.Align? {
        u := rest + [Align(x.from, y.to)];
        SnocScript(rest, Align(x.from, y.to));
      } else if x.Align? {
        u := rest + [Delete(x.from)];
        SnocScript(rest, Delete(x.from));
      } else if y.Align? {
        u := rest + [Insert(y.to)];
        SnocScript(rest, Insert(y.to));
      } else {
        u := rest;
      }
    }
  }

  lemma {:induction false} DistanceIsSymmetric(a: Bytes, b: Bytes)
    ensures Distance(a, b) == Distance(b, a)
  {
    var there := BestScript(a, b);
    var back := BestScript(b, a);
    var thereReversed := ReverseScript(there);
    var backReversed := ReverseScript(back);
    NoCheaperScript(thereReversed);
    NoCheaperScript(backReversed);
  }

  lemma TriangleInequality(a: Bytes, b: Bytes, c: Bytes)
    ensures Distance(a, c) <= Distance(a, b) + Distance(b, c)
  {
    var s := BestScript(a, b);
    var t := BestScript(b, c);
    var u := ComposeScripts(s, t);
    NoCheaperScript(u);
  }

  lemma {:induction false} FreeScriptIsIdentity(script: Script)
    requires Total(script) == 0
    ensures Source(script) == Target(script)
  {
    if script != [] {
      FreeScriptIsIdentity(script[..|script| - 1]);
    }
  }

  lemma {:induction false} DistanceToSelf(a: Bytes)
    ensures Distance(a, a) == 0
  {
    if a != [] {
      DistanceToSelf(Init(a));
    }
  }

  lemma {:induction false} ZeroOnlyOnEqual(a: Bytes, b: Bytes)
    ensures Distance(a, b) == 0 <==> a == b
  {
    if a == b {
      DistanceToSelf(a);
    } else if Distance(a, b) == 0 {
      var script := BestScript(a, b);
      FreeScriptIsIdentity(script);
    }
  }

  // --------------------------------------------------------------------------
  // The two-row table
  // --------------------------------------------------------------------------

  /** Row `i` of the table: distances from the first `i` bytes of `left` to each prefix of `right`. */
  ghost predicate IsRow(row: seq<nat>, left: Bytes, i: nat, right: Bytes, filled: nat)
    requires i <= |left| && filled <= |right| < |row|
  {
    forall j :: 0 <= j <= filled ==> row[j] == Distance(left[..i], right[..j])
  }

  lemma Cell(left: Bytes, i: nat, right: Bytes, j: nat)
    requires i < |left| && j < |right|
    ensures Distance(left[..i + 1], right[..j + 1]) ==
      Min(Min(Distance(left[..i], right[..j]) + (if left[i] != right[j] then 1 else 0),
              Distance(left[..i], right[..j + 1]) + 1),
          Distance(left[..i + 1], right[..j]) + 1)
  {
    assert Init(left[..i + 1]) == left[..i] && Init(right[..j + 1]) == right[..j];
  }

  lemma NextCell(row: seq<nat>, above: seq<nat>, left: Bytes, i: nat, right: Bytes, j: nat)
    requires i < |left| && j < |right| < |row| && |above| == |row|
    requires IsRow(above, left, i, right, |right|) && IsRow(row, left, i + 1, right, j)
    ensures var substitution := above[j] + if left[i] != right[j] then 1 else 0;
            IsRow(row[j + 1 := Min(Min(substitution, above[j + 1] + 1), row[j] + 1)], left, i + 1, right, j + 1)
  {
    Cell(left, i, right, j);
  }

  /** The inner loop: fills one row from the row above it. */
  method FillRow(left: Bytes, i: nat, right: Bytes, previous: array<nat>, current: array<nat>)
    requires i < |left| && previous != current
    requires previous.Length == current.Length == |right| + 1
    requires IsRow(previous[..], left, i, right, |right|)
    modifies current
    ensures IsRow(current[..], left, i + 1, right, |right|)
  {
    current[0] := i + 1;
    assert right[..0] == [] && |left[..i + 1]| == i + 1;
    var j := 0;
    while j < |right|
      invariant 0 <= j <= |right|
      invariant IsRow(current[..], left, i + 1, right, j)
    {
      ghost var before := current[..];
      NextCell(before, previous[..], left, i, right, j);
      var substitution := previous[j] + if left[i] != right[j] then 1 else 0;
      current[j + 1] := Min(Min(substitution, previous[j + 1] + 1), current[j] + 1);
      assert current[..] == before[j + 1 := current[j + 1]];
      j := j + 1;
    }
  }

  /** Computes the distance with two buffers that are filled row by row and swapped. */
  method EditDistance(left: Bytes, right: Bytes) returns (distance: nat)
    ensures IsDistance(distance, left, right)
    ensures distance == Distance(left, right)
  {
    var previous := new nat[|right| + 1](i => i);
    var current := new nat[|right| + 1](_ => 0);
    var i := 0;
    assert left[..0] == [];
    while i < |left|
      invariant 0 <= i <= |left|
      invariant fresh(previous) && fresh(current) && previous != current
      invariant previous.Length == current.Length == |right| + 1
      invariant IsRow(previous[..], left, i, right, |right|)
    {
      FillRow(left, i, right, previous, current);
      previous, current := current, previous;
      i := i + 1;
    }
    assert left[..i] == left && right[..|right|] == right;
    distance := previous[|right|];
    assert distance == previous[..][|right|];
    DistanceIsLeast(left, right);
  }

  // --------------------------------------------------------------------------
  // Choosing a suggestion
  // --------------------------------------------------------------------------

  function AcceptedDistance(length: nat): nat {
    if length <= 4 then 1 else if length <= 8 then 2 else 3
  }

  predicate Admissible(input: Bytes, candidate: Bytes) {
    && |candidate| <= MAX_SUGGESTION_BYTES
    && Distance(input, candidate) <= AcceptedDistance(Max(|input|, |candidate|))
  }

  /** Order of the keys compared by the minimum: distance first, then length. */
  predicate Precedes(input: Bytes, a: Bytes, b: Bytes) {
    || Distance(input, a) < Distance(input, b)
    || (Distance(input, a) == Distance(input, b) && |a| < |b|)
  }

  /** Keeps the admissible candidate found first among those with the least key. */
  function BestIndex(input: Bytes, candidates: seq<Bytes>): Option<nat> {
    if candidates == [] then None
    else
      var n := |candidates| - 1;
      var best := BestIndex(input, candidates[..n]);
      if !Admissible(input, candidates[n]) then best
      else if best.Some? && best.value < n && !Precedes(input, candidates[n], candidates[best.value]) then best
      else Some(n)
  }

  function Closest(input: Bytes, candidates: seq<Bytes>): Option<Bytes> {
    if |input| > MAX_SUGGESTION_BYTES then None
    else
      var best := BestIndex(input, candidates);
      if best.Some? && best.value < |candidates| then Some(candidates[best.value]) else None
  }

  lemma {:induction false} BestIndexIsFirstMinimum(input: Bytes, candidates: seq<Bytes>)
    ensures var best := BestIndex(input, candidates);
      && (best.None? <==> forall c :: c in candidates ==> !Admissible(input, c))
      && (best.Some? ==>
        && best.value < |candidates|
        && Admissible(input, candidates[best.value])
        && (forall k :: 0 <= k < |candidates| && Admissible(input, candidates[k]) ==>
              && !Precedes(input, candidates[k], candidates[best.value])
              && (k < best.value ==> Precedes(input, candidates[best.value], candidates[k]))))
  {
    if candidates != [] {
      var n := |candidates| - 1;
      BestIndexIsFirstMinimum(input, candidates[..n]);
      assert forall k :: 0 <= k < n ==> candidates[..n][k] == candidates[k];
    }
  }

  /** A suggestion is the first admissible candidate with the least (distance, length). */
  lemma ClosestIsFirstMinimum(input: Bytes, candidates: seq<Bytes>)
    ensures Closest(input, candidates).None? <==>
      |input| > MAX_SUGGESTION_BYTES || forall c :: c in candidates ==> !Admissible(input, c)
    ensures Closest(input, candidates).Some? ==>
      exists i :: 0 <= i < |candidates| && Closest(input, candidates) == Some(candidates[i]) &&
        Admissible(input, candidates[i]) &&
        forall k :: 0 <= k < |candidates| && Admissible(input, candidates[k]) ==>
          !Precedes(input, candidates[k], candidates[i]) &&
          (k < i ==> Precedes(input, candidates[i], candidates[k]))
  {
    BestIndexIsFirstMinimum(input, candidates);
  }

  /** What is suggested, in full: among the candidates of at most 128 bytes whose distance is at most one, two or three,
      depending on the longer word, the first with the least distance and then the least length. */
  lemma SuggestedExactlyWhen(input: Bytes, candidates: seq<Bytes>, i: nat)
    requires i < |candidates| && forall k :: 0 <= k < |candidates| && k != i ==> candidates[k] != candidates[i]
    ensures Closest(input, candidates) == Some(candidates[i]) <==>
      && |input| <= 128 && Near(input, candidates[i])
      && forall k :: 0 <= k < |candidates| && k != i && Near(input, candidates[k]) ==>
           var (a, b) := (Distance(input, candidates[i]), Distance(input, candidates[k]));
           a < b || (a == b && (|candidates[i]| < |candidates[k]| || (|candidates[i]| == |candidates[k]| && i < k)))
  {
    NearIsAdmissible(input);
    BestIndexIsFirstMinimum(input, candidates);
    var best := BestIndex(input, candidates);
    if best.Some? && best.value != i {
      assert candidates[best.value] != candidates[i];
    }
  }

  /** Close enough to be suggested. */
  predicate Near(input: Bytes, candidate: Bytes) {
    var longer := if |input| >= |candidate| then |input| else |candidate|;
    && |candidate| <= 128
    && (longer <= 4 ==> Distance(input, candidate) <= 1)
    && (5 <= longer <= 8 ==> Distance(input, candidate) <= 2)
    && Distance(input, candidate) <= 3
  }

  lemma NearIsAdmissible(input: Bytes)
    ensures forall candidate :: Near(input, candidate) <==> Admissible(input, candidate)
  {
  }

  /** A candidate the user typed exactly is always suggested. */
  lemma ExactMatchWins(input: Bytes, candidates: seq<Bytes>)
    requires |input| <= MAX_SUGGESTION_BYTES && input in candidates
    ensures Closest(input, candidates) == Some(input)
  {
    ZeroOnlyOnEqual(input, input);
    BestIndexIsFirstMinimum(input, candidates);
    var best := BestIndex(input, candidates);
    assert Admissible(input, input);
    var k :| 0 <= k < |candidates| && candidates[k] == input;
    ZeroOnlyOnEqual(input, candidates[best.value]);
  }
}
