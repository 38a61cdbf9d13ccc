/** The field iterator both directions share (pb_common.c): it goes round the descriptor and
    counts the required fields it has passed.
 */
module PbCommon {
  import opened Options
  import opened PbMessages
  import opened PbWire

  class FieldIter {
    const fields: seq<Field>
    var pos: nat
    var requiredFieldIndex: nat

    ghost predicate Valid()
      reads this
    {
      && (pos < |fields| || (pos == 0 && fields == []))
      && requiredFieldIndex == RequiredBefore(fields, pos)
    }

    /** pb_field_iter_begin; there is a field to look at unless the message type is empty. */
    constructor (fields: seq<Field>)
      ensures Valid() && this.fields == fields && pos == 0
    {
      this.fields := fields;
      pos, requiredFieldIndex := 0, 0;
    }

    /** pb_field_iter_next: false on wrapping back to the first field. */
    method Next() returns (more: bool)
      requires Valid()
      modifies this
      ensures Valid()
      ensures if old(pos) + 1 < |fields| then more && pos == old(pos) + 1 else !more && pos == 0
    {
      if fields == [] {
        return false;
      }
      var prev := fields[pos];
      pos := pos + 1;
      if pos == |fields| {
        pos, requiredFieldIndex := 0, 0;
        return false;
      }
      if prev.htype.Required? {
        requiredFieldIndex := requiredFieldIndex + 1;
      }
      return true;
    }

    /** The places met on the way round from `start` to `here`. */
    static predicate Passed(start: nat, here: nat, i: nat) {
      if start <= here then start <= i < here else start <= i || i < here
    }

    /** pb_field_iter_find: all the way round from where the iterator stands. */
    method Find(tag: nat) returns (found: bool)
      requires Valid()
      modifies this
      ensures Valid()
      ensures found ==> pos < |fields| && fields[pos].tag == tag
      ensures !found ==> forall i :: 0 <= i < |fields| ==> fields[i].tag != tag
    {
      if fields == [] {
        return false;
      }
      var start := pos;
      if fields[pos].tag == tag {
        return true;
      }
      var _ := Next();
      while pos != start
        invariant Valid() && start < |fields|
        invariant forall i: nat :: i < |fields| && Passed(start, pos, i) ==> fields[i].tag != tag
        invariant fields[start].tag != tag
        invariant pos == start ==> forall i :: 0 <= i < |fields| ==> fields[i].tag != tag
        decreases if pos > start then |fields| - pos + start else start - pos
      {
        if fields[pos].tag == tag {
          return true;
        }
        var _ := Next();
      }
      return false;
    }
  }
}
