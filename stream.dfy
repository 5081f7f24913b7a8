/**
 * A consumable stream (helpers/stream.py): a list of items and a cursor into
 * it.  The cursor only moves forward, and the list never changes.
 */
module Streams {
  import opened Wrappers

  /** Failures the stream raises. */
  datatype StreamError =
    | OutOfBounds        // peek outside the list
    | NonPositiveCount   // consume asked for fewer than one item
    | TooManyConsumed    // consume would pass the end

  class Stream<U> {
    var data: seq<U>
    var index: int

    /** The cursor lies within the list or just past its end. */
    ghost predicate Valid()
      reads this
    {
      0 <= index <= |data|
    }

    /** from_iterable: the whole list, with the cursor at its start. */
    constructor FromIterable(items: seq<U>)
      ensures data == items && index == 0 && Valid()
    {
      data := items;
      index := 0;
    }

    /** peek(offset): the item offset places after the cursor, when there is one. */
    function Peek(offset: int): (r: Result<U, StreamError>)
      reads this
      requires Valid()
      ensures r.Success? <==> 0 <= index + offset < |data|
      ensures r.Success? ==> r.value == data[index + offset]
      ensures r.Failure? ==> r.error == OutOfBounds
    {
      if 0 <= index + offset < |data| then Success(data[index + offset]) else Failure(OutOfBounds)
    }

    /** consume(number): moves the cursor number items on and returns the last
      * item passed; a count below one, or one passing the end, fails and leaves
      * the cursor where it was. */
    method Consume(number: int) returns (r: Result<U, StreamError>)
      requires Valid()
      modifies this
      ensures Valid() && data == old(data)
      ensures r.Success? <==> 0 < number && old(index) + number <= |data|
      ensures r.Success? ==> r.value == data[old(index) + number - 1] && index == old(index) + number
      ensures r.Failure? ==> index == old(index)
      ensures r.Failure? ==> r.error == (if number <= 0 then NonPositiveCount else TooManyConsumed)
    {
      var effective := index + number;
      if number <= 0 {
        return Failure(NonPositiveCount);
      }
      if effective > |data| {
        return Failure(TooManyConsumed);
      }
      r := Success(data[effective - 1]);
      index := effective;
    }

    /** is_empty: the cursor has passed every item. */
    predicate IsEmpty()
      reads this
    {
      index >= |data|
    }

    /** The items not yet consumed. */
    ghost function Rest(): seq<U>
      reads this
      requires Valid()
    {
      data[index..]
    }
  }

  /** The items from i on are item i followed by the items from i + 1 on. */
  lemma RestStep<U>(data: seq<U>, i: int)
    requires 0 <= i < |data|
    ensures data[i..] != [] && data[i..][0] == data[i] && data[i..][1..] == data[i + 1..]
  {
  }

  /** The stream is empty exactly when there is nothing to peek at. */
  lemma EmptyIffNoPeek<U>(s: Stream<U>)
    requires s.Valid()
    ensures s.IsEmpty() <==> s.Peek(0).Failure?
    ensures s.IsEmpty() <==> s.Rest() == []
  {
  }

  /** Peeking at offset k shows item k of what is left. */
  lemma PeekRest<U>(s: Stream<U>, k: nat)
    requires s.Valid() && k < |s.Rest()|
    ensures s.Peek(k) == Success(s.Rest()[k])
  {
  }
}
