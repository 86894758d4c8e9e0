/** The recitation counters of src/renderer/js/athkarUI.js: a map from an
    athkar's id to how many times it has been recited, bounded by the
    item's target. */
module Athkar {
  import opened Wrappers
  import opened Strings

  /** `athkarState`: counts by id. */
  type State = map<string, int>

  /** `${currentCategory}-${index}`. */
  function AthkarId(category: string, index: nat): string {
    category + "-" + NatToString(index)
  }

  /** Within a category, distinct positions get distinct ids. */
  lemma AthkarIdInjective(category: string, i: nat, j: nat)
    ensures AthkarId(category, i) == AthkarId(category, j) <==> i == j
  {
    if AthkarId(category, i) == AthkarId(category, j) {
      var n := |category| + 1;
      assert NatToString(i) == AthkarId(category, i)[n..];
      assert NatToString(j) == AthkarId(category, j)[n..];
      NatToStringInjective(i, j);
    }
  }

  /** `athkarState[id] || 0`: a missing entry reads as 0. */
  function CountOf(state: State, id: string): int {
    if id in state then state[id] else 0
  }

  /** `parseInt(item.count) || 1`: NaN and 0 become 1, any other parsed
      value (a negative one included) is the target. */
  function Target(count: string): (t: int)
    ensures t != 0
    ensures ParseInt(count).Some? && ParseInt(count).value != 0 ==> t == ParseInt(count).value
    ensures ParseInt(count).None? || ParseInt(count).value == 0 ==> t == 1
  {
    match ParseInt(count)
    case Some(v) => if v == 0 then 1 else v
    case None => 1
  }

  /** `currentCount >= targetCount`: the card is marked done and its
      increment button is disabled. */
  predicate Completed(state: State, id: string, target: int) {
    CountOf(state, id) >= target
  }

  /** `incrementCount(id, target)`: the new state, and whether the count
      went up (the "count increased" toast) rather than being at its
      target already (the "maximum reached" toast). A missing or zero
      entry is first stored as 0. */
  function Increment(state: State, id: string, target: int): (r: (State, bool))
    ensures r.1 <==> CountOf(state, id) < target
    ensures r.1 ==> CountOf(r.0, id) == CountOf(state, id) + 1
    ensures !r.1 ==> CountOf(r.0, id) == CountOf(state, id)
    ensures forall other :: other != id ==> CountOf(r.0, other) == CountOf(state, other)
    ensures r.0.Keys == state.Keys + {id}
  {
    var s1 := if CountOf(state, id) == 0 then state[id := 0] else state;
    if s1[id] < target then (s1[id := s1[id] + 1], true) else (s1, false)
  }

  /** `resetCount(id)`. */
  function Reset(state: State, id: string): (r: State)
    ensures CountOf(r, id) == 0
    ensures forall other :: other != id ==> CountOf(r, other) == CountOf(state, other)
  {
    state[id := 0]
  }

  /** The reset-all confirmation: `athkarState = {}`. */
  function ResetAll(state: State): (r: State)
    ensures forall id :: CountOf(r, id) == 0
  {
    map[]
  }

  /** `loadAthkarState()`: with nothing saved the state stays as it is; a
      saved text that `parse` (the stand-in for `JSON.parse`) rejects
      leaves the empty state. */
  function LoadState(current: State, saved: Option<string>, parse: string -> Option<State>): (r: State)
    ensures saved.None? || saved.value == "" ==> r == current
    ensures saved.Some? && saved.value != "" && parse(saved.value).None? ==> r == map[]
    ensures saved.Some? && saved.value != "" && parse(saved.value).Some? ==> r == parse(saved.value).value
  {
    if saved.None? || saved.value == "" then current
    else match parse(saved.value)
      case Some(m) => m
      case None => map[]
  }

  /** `n` presses of the increment button. */
  function IncrementN(state: State, id: string, target: int, n: nat): State
    decreases n
  {
    if n == 0 then state else IncrementN(Increment(state, id, target).0, id, target, n - 1)
  }

  /** From a count at most the target, `n` presses reach `count + n` but
      never pass the target, and no other athkar's count changes. */
  lemma {:induction false} IncrementNBounded(state: State, id: string, target: int, n: nat)
    requires CountOf(state, id) <= target
    ensures CountOf(IncrementN(state, id, target, n), id) ==
            if CountOf(state, id) + n <= target then CountOf(state, id) + n else target
    ensures forall other :: other != id ==> CountOf(IncrementN(state, id, target, n), other) == CountOf(state, other)
    decreases n
  {
    if n > 0 {
      var s1 := Increment(state, id, target).0;
      IncrementNBounded(s1, id, target, n - 1);
    }
  }

  /** A count at the target stays there: pressing again changes nothing a
      reader of the state can see. */
  lemma CompletedIsStable(state: State, id: string, target: int)
    requires Completed(state, id, target)
    ensures var (s1, up) := Increment(state, id, target);
      !up && forall k :: CountOf(s1, k) == CountOf(state, k)
  {
  }

  /** A fresh counter is done after exactly `target` presses, and not
      before. */
  lemma CompletesAfterTarget(state: State, id: string, target: int, n: nat)
    requires 1 <= target && CountOf(state, id) == 0
    ensures Completed(IncrementN(state, id, target, n), id, target) <==> target <= n
  {
    IncrementNBounded(state, id, target, n);
  }

  /** After a reset, a press counts one recitation. */
  lemma ResetThenIncrement(state: State, id: string, target: int)
    requires 1 <= target
    ensures var (s1, up) := Increment(Reset(state, id), id, target);
      up && CountOf(s1, id) == 1
  {
  }
}
