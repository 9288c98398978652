/** The state of the sixteen-key hexadecimal keypad: one flag per key,
    pressed or not, and the query that finds a key released between two
    snapshots of the keypad. */
module Keypad {

  datatype Option<T> = None | Some(value: T)

  /** Key k is pressed in the snapshot before and released in the one after. */
  predicate Released(before: seq<bool>, after: seq<bool>, k: nat)
    requires |before| == |after|
  {
    k < |before| && before[k] && !after[k]
  }

  /** The lowest key from index i on that was released between the two
      snapshots, if any. */
  function FirstRelease(before: seq<bool>, after: seq<bool>, i: nat): (r: Option<nat>)
    requires |before| == |after| && i <= |before|
    ensures r.Some? ==> i <= r.value && Released(before, after, r.value)
    ensures r.Some? ==> forall k :: i <= k < r.value ==> !Released(before, after, k)
    ensures r.None? ==> forall k :: i <= k < |before| ==> !Released(before, after, k)
    decreases |before| - i
  {
    if i == |before| then None
    else if before[i] && !after[i] then Some(i)
    else FirstRelease(before, after, i + 1)
  }

  /** A release is reported exactly when some key was released. */
  lemma ReleaseIff(before: seq<bool>, after: seq<bool>)
    requires |before| == |after|
    ensures FirstRelease(before, after, 0).Some? <==> exists k :: Released(before, after, k)
  {
  }

  /** A keypad compared with itself reports no release. */
  lemma NoReleaseAgainstItself(keys: seq<bool>)
    ensures FirstRelease(keys, keys, 0) == None
  {
  }

  /** Nor does a keypad compared with one that holds at least its keys. */
  lemma NoReleaseAgainstSuperset(before: seq<bool>, after: seq<bool>)
    requires |before| == |after|
    requires forall k :: 0 <= k < |before| && before[k] ==> after[k]
    ensures FirstRelease(before, after, 0) == None
  {
  }

  class Keypad {
    /** keys[k] holds while key k is down. */
    const keys: array<bool>

    predicate Valid() {
      keys.Length == 16
    }

    /** Keypad::new: no key down. */
    constructor ()
      ensures Valid() && fresh(keys)
      ensures forall k :: 0 <= k < 16 ==> !keys[k]
    {
      keys := new bool[16](_ => false);
    }

    /** get_new_key_release: the lowest key down here and up in other,
        scanning the keys in order and stopping at the first. */
    method GetNewKeyRelease(other: Keypad) returns (r: Option<nat>)
      requires Valid() && other.Valid()
      ensures r == FirstRelease(keys[..], other.keys[..], 0)
    {
      var i := 0;
      while i < keys.Length
        invariant 0 <= i <= keys.Length
        invariant FirstRelease(keys[..], other.keys[..], 0) == FirstRelease(keys[..], other.keys[..], i)
      {
        if keys[i] && !other.keys[i] {
          return Some(i);
        }
        i := i + 1;
      }
      return None;
    }

    /** key_down: key id goes down, the others stay as they were. */
    method KeyDown(id: nat)
      requires Valid() && id < 16
      modifies keys
      ensures IsKeyPressed(id)
      ensures keys[..] == old(keys[..])[id := true]
    {
      keys[id] := true;
    }

    /** key_up: key id goes up, the others stay as they were. */
    method KeyUp(id: nat)
      requires Valid() && id < 16
      modifies keys
      ensures !IsKeyPressed(id)
      ensures keys[..] == old(keys[..])[id := false]
    {
      keys[id] := false;
    }

    /** is_key_pressed */
    predicate IsKeyPressed(id: nat)
      requires Valid() && id < 16
      reads keys
    {
      keys[id]
    }
  }
}
