/**
  * The `add_or_delete` reducer that the graph states attach to their list-valued channels: it
  * appends to a list, unions into a set, resets on the marker "delete", and refuses to mix a list
  * with a set.
  */
module Reducer {
  import opened Wrappers

  /** A channel's current value: a Python list or a Python set. */
  datatype Collection<T> = ListOf(items: seq<T>) | SetOf(elems: set<T>)

  /**
    * What a node writes to a channel: the marker "delete", Python's None, any sequence, or a set.
    */
  datatype Incoming<T> = Delete | NoValue | SeqOf(s: seq<T>) | SetIn(e: set<T>)

  /** The TypeError raised when a list meets a set (or a set meets a sequence). */
  datatype TypeMismatch = TypeMismatch(existingIsList: bool, newIsSequence: bool)

  predicate IsEmptyCollection<T>(c: Collection<T>)
  {
    match c
    case ListOf(xs) => xs == []
    case SetOf(e) => e == {}
  }

  /** `not new` for a value that is not the "delete" marker. */
  predicate IsFalsy<T>(n: Incoming<T>)
  {
    match n
    case Delete => false
    case NoValue => true
    case SeqOf(s) => s == []
    case SetIn(e) => e == {}
  }

  function AddOrDelete<T(!new)>(existing: Option<Collection<T>>, incoming: Incoming<T>): (r: Result<Collection<T>, TypeMismatch>)
    // "delete" resets to an empty list when the channel holds a list, else to an empty set
    ensures incoming.Delete? ==>
      r.Ok? && IsEmptyCollection(r.value) && (r.value.ListOf? <==> existing.Some? && existing.value.ListOf?)
    // a None or empty write leaves an existing value as it is
    ensures existing.Some? && IsFalsy(incoming) ==> r == Ok(existing.value)
    // a missing value starts as a list for a sequence, else as a set
    ensures existing.None? && incoming.SeqOf? ==> r == Ok(ListOf(incoming.s))
    ensures existing.None? && incoming.SetIn? ==> r == Ok(SetOf(incoming.e))
    ensures existing.None? && incoming.NoValue? ==> r == Ok(SetOf({}))
    // list + sequence: the old elements first, then the new ones, in order
    ensures existing.Some? && existing.value.ListOf? && incoming.SeqOf? ==>
      && r.Ok? && r.value.ListOf?
      && |r.value.items| == |existing.value.items| + |incoming.s|
      && r.value.items[..|existing.value.items|] == existing.value.items
      && r.value.items[|existing.value.items|..] == incoming.s
    // set + set: union
    ensures existing.Some? && existing.value.SetOf? && incoming.SetIn? ==>
      r.Ok? && r.value.SetOf? && forall x :: x in r.value.elems <==> x in existing.value.elems || x in incoming.e
    // every other combination is a type error
    ensures r.Err? <==>
      && existing.Some? && !IsFalsy(incoming) && !incoming.Delete?
      && (existing.value.ListOf? != incoming.SeqOf?)
  {
    if incoming.Delete? then
      Ok(if existing.Some? && existing.value.ListOf? then ListOf([]) else SetOf({}))
    else
      var current := if existing.Some? then existing.value else if incoming.SeqOf? then ListOf([]) else SetOf({});
      if IsFalsy(incoming) then Ok(current)
      else if current.ListOf? && incoming.SeqOf? then
        assert existing.None? ==> current.items + incoming.s == incoming.s;
        Ok(ListOf(current.items + incoming.s))
      else if current.SetOf? && incoming.SetIn? then
        assert existing.None? ==> current.elems + incoming.e == incoming.e;
        Ok(SetOf(current.elems + incoming.e))
      else Err(TypeMismatch(current.ListOf?, incoming.SeqOf?))
  }

  /** The value a channel ends with after the writes are reduced into it one after another. */
  function Accumulate<T(!new)>(c: Collection<T>, writes: seq<Incoming<T>>): Result<Collection<T>, TypeMismatch>
    decreases |writes|
  {
    if writes == [] then Ok(c)
    else
      match AddOrDelete(Some(c), writes[0])
      case Err(e) => Err(e)
      case Ok(c') => Accumulate(c', writes[1..])
  }

  predicate AllSequences<T>(writes: seq<Incoming<T>>)
  {
    forall k :: 0 <= k < |writes| ==> writes[k].SeqOf?
  }

  /** The concatenation of sequence writes, in order. */
  function Flatten<T>(writes: seq<Incoming<T>>): seq<T>
    requires AllSequences(writes)
    decreases |writes|
  {
    if writes == [] then [] else writes[0].s + Flatten(writes[1..])
  }

  /**
    * Reducing sequence writes into a list, one per fanned-out branch, concatenates them in the
    * order they arrive and never raises.
    */
  lemma {:induction false} AccumulateSequences<T(!new)>(xs: seq<T>, writes: seq<Incoming<T>>)
    requires AllSequences(writes)
    ensures Accumulate(ListOf(xs), writes) == Ok(ListOf(xs + Flatten(writes)))
    decreases |writes|
  {
    if writes == [] {
      assert xs + Flatten(writes) == xs;
    } else {
      assert writes[0].SeqOf?;
      var ys := AddOrDelete(Some(ListOf(xs)), writes[0]).value.items;
      assert ys == xs + writes[0].s;
      AccumulateSequences(ys, writes[1..]);
      assert xs + writes[0].s + Flatten(writes[1..]) == xs + (writes[0].s + Flatten(writes[1..]));
    }
  }

  /** Whatever was reduced into a list before, "delete" leaves an empty list. */
  lemma {:induction false} DeleteAfterAnything<T(!new)>(xs: seq<T>, writes: seq<Incoming<T>>)
    requires AllSequences(writes)
    ensures Accumulate(ListOf(xs), writes + [Delete]) == Ok(ListOf([]))
    decreases |writes|
  {
    if writes == [] {
      var one: seq<Incoming<T>> := [Delete];
      assert writes + [Delete] == one;
      assert AddOrDelete(Some(ListOf(xs)), Delete) == Ok(ListOf([]));
      assert one[1..] == [];
    } else {
      assert (writes + [Delete])[0] == writes[0];
      assert (writes + [Delete])[1..] == writes[1..] + [Delete];
      var ys := AddOrDelete(Some(ListOf(xs)), writes[0]).value.items;
      assert ys == xs + writes[0].s;
      DeleteAfterAnything(ys, writes[1..]);
    }
  }
}
