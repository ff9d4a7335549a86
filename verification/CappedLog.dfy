/** A bounded list kept in place: once full, every append drops the oldest item. */
module CappedLog {
  import opened Prelude
  import opened LedgerModel

  class CappedLog<T(0)> {
    const items: array<T>
    var len: nat

    constructor (limit: nat)
      requires limit > 0
      ensures Valid() && Contents() == [] && items.Length == limit && fresh(items)
    {
      items := new T[limit];
      len := 0;
    }

    ghost predicate Valid()
      reads this
    {
      len <= items.Length && 0 < items.Length
    }

    function Contents(): seq<T>
      requires Valid()
      reads this, items
    {
      items[..len]
    }

    method Append(item: T)
      requires Valid()
      modifies this, items
      ensures Valid() && Contents() == AppendCapped(old(Contents()), item, items.Length)
    {
      if len < items.Length {
        items[len] := item;
        len := len + 1;
        return;
      }
      forall i | 0 <= i < len - 1 {
        items[i] := items[i + 1];
      }
      items[len - 1] := item;
    }

    /** Appends a whole list to an empty log. */
    method Restore(list: seq<T>)
      requires Valid() && Contents() == []
      modifies this, items
      ensures Valid() && Contents() == LastN(list, items.Length)
    {
      for i := 0 to |list|
        invariant Valid() && Contents() == LastN(list[..i], items.Length)
      {
        CappedIsLast(list[..i], list[i], items.Length);
        assert list[..i + 1] == list[..i] + [list[i]];
        Append(list[i]);
      }
      assert list[..|list|] == list;
    }
  }

  function Reverse<T>(s: seq<T>): (r: seq<T>)
    ensures |r| == |s|
    ensures forall k :: 0 <= k < |s| ==> r[k] == s[|s| - 1 - k]
  {
    seq(|s|, k requires 0 <= k < |s| => s[|s| - 1 - k])
  }

  /** Copies a log, newest first. */
  method Reversed<T(0)>(log: CappedLog<T>) returns (result: array<T>)
    requires log.Valid()
    ensures fresh(result) && result[..] == Reverse(log.Contents())
  {
    result := new T[log.len];
    for index := 0 to log.len
      invariant log.len == result.Length && log.Valid()
      invariant forall k :: 0 <= k < index ==> result[log.len - 1 - k] == log.items[k]
    {
      result[log.len - 1 - index] := log.items[index];
    }
  }
}
