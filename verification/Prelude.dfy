/** Shared datatypes and small functions. */
module Prelude {
  datatype Option<+T> = None | Some(value: T)

  ghost predicate Distinct<T>(s: seq<T>) { forall i, j :: 0 <= i < j < |s| ==> s[i] != s[j] }

  // Byte i of a string that goes on with zeros.
  function At(s: seq<bv8>, i: nat): bv8 { if i < |s| then s[i] else 0 }

  // The length a codec returns: 0 when there is no room; without a place to write to only the length is asked for.
  function Written(len: nat, room: Option<nat>): nat { if room.None? || len <= room.value then len else 0 }
}
