/** A batch is sent with the bucket's own event slice, not with a copy, and the bucket
    goes on growing (internal/window/tumbling.go, emitBlocking and append). Here a
    slice is what it is in Go: an array, and how much of it is in use. */
module SliceSharing {
  import opened Model

  datatype Slice = Slice(arr: array<Event>, len: nat)

  class SharedBucket {
    var arr: array<Event>
    var len: nat
    /** The slices of the batches sent so far, aliases of this bucket's arrays. */
    var sent: seq<Slice>
    /** What each of them read when it was sent. */
    ghost var read: seq<seq<Event>>

    ghost function Arrays(): set<object>
      reads this
    {
      {arr} + set s | s in sent :: s.arr
    }

    /** Every batch still reads what it read when it was sent, and any batch in the
        current array lies within the part that is never written again. */
    ghost predicate Valid()
      reads this, Arrays()
    {
      && len <= arr.Length
      && |sent| == |read|
      && (forall i | 0 <= i < |sent| :: sent[i].len <= sent[i].arr.Length && sent[i].arr[..sent[i].len] == read[i])
      && (forall i | 0 <= i < |sent| :: sent[i].arr == arr ==> sent[i].len <= len)
    }

    ghost function Events(): seq<Event>
      requires Valid()
      reads this, Arrays()
    {
      arr[..len]
    }

    constructor ()
      ensures Valid() && Events() == [] && sent == [] && fresh(arr)
    {
      arr, len, sent, read := new Event[0], 0, [], [];
    }

    /** Go's append: in place while there is room, else into a new array with some
        spare room. No batch sent before changes. */
    method Append(ev: Event, spare: nat)
      requires Valid()
      modifies this`arr, this`len, arr
      ensures Valid() && Events() == old(Events()) + [ev]
      ensures sent == old(sent) && read == old(read)
      ensures arr == old(arr) || fresh(arr)
    {
      if len == arr.Length {
        var bigger := new Event[len + 1 + spare];
        for i := 0 to len
          invariant Valid() && len == old(len) && arr == old(arr) && arr[..] == old(arr[..])
          invariant bigger[..i] == arr[..i]
        {
          bigger[i] := arr[i];
        }
        arr := bigger;
      }
      assert arr[..len] == old(Events());
      arr[len] := ev;
      len := len + 1;
      assert arr[..len] == arr[..len - 1] + [ev];
    }

    /** Sending a batch shares the array; it reads the events of this moment. */
    method Emit()
      requires Valid()
      modifies this`sent, this`read
      ensures Valid() && Events() == old(Events())
      ensures sent == old(sent) + [Slice(arr, len)] && read == old(read) + [Events()]
    {
      sent, read := sent + [Slice(arr, len)], read + [arr[..len]];
    }

    /** Any number of later events, whatever the growth policy, leave every batch
        sent so far exactly as the consumer saw it. */
    method AppendAll(events: seq<Event>, spares: seq<nat>)
      requires Valid() && |spares| == |events|
      modifies this`arr, this`len, arr
      ensures Valid() && Events() == old(Events()) + events
      ensures sent == old(sent) && read == old(read)
      ensures forall i | 0 <= i < |sent| :: sent[i].arr[..sent[i].len] == old(sent[i].arr[..sent[i].len])
    {
      for i := 0 to |events|
        invariant Valid() && Events() == old(Events()) + events[..i]
        invariant sent == old(sent) && read == old(read)
        invariant arr == old(arr) || fresh(arr)
      {
        Append(events[i], spares[i]);
        assert events[..i + 1] == events[..i] + [events[i]];
      }
      assert events[..|events|] == events;
    }
  }
}
