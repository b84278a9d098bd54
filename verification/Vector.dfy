/** std::vector: a growing array whose contents are a sequence. */
module Vector {
  /** What swap_remove leaves: the last element takes the place of the removed one. */
  function SwapRemoved<T>(v: seq<T>, i: nat): (r: seq<T>)
    requires i < |v|
    ensures |r| == |v| - 1
  {
    if i == |v| - 1 then v[..i] else v[..|v| - 1][i := v[|v| - 1]]
  }

  /** swap_remove drops exactly one element. */
  lemma SwapRemovedIs<T>(v: seq<T>, i: nat)
    requires i < |v|
    ensures multiset(SwapRemoved(v, i)) == multiset(v) - multiset{v[i]}
  {
    var n := |v| - 1;
    assert v == v[..n] + [v[n]];
    if i < n {
      assert v[..n] == v[..i] + [v[i]] + v[i + 1..n];
      assert SwapRemoved(v, i) == v[..i] + [v[n]] + v[i + 1..n];
    }
  }

  class Vector<T(0)> {
    var data: array<T>
    var size: nat

    predicate Valid()
      reads this
    {
      size <= data.Length
    }

    function Contents(): (s: seq<T>)
      reads this, data
      requires Valid()
    {
      data[..size]
    }

    constructor ()
      ensures Valid() && fresh(data) && Contents() == [] && data.Length == 0
    {
      data := new T[0];
      size := 0;
    }

    /** reserve moves the elements to a larger block. */
    method Reserve(newSize: nat)
      requires Valid()
      modifies this`data
      ensures Valid() && Contents() == old(Contents()) && size == old(size)
      ensures data.Length == if newSize <= old(data.Length) then old(data.Length) else newSize
      ensures data == old(data) || fresh(data)
    {
      if newSize <= data.Length {
        return;
      }
      var bigger := new T[newSize];
      for i := 0 to size
        invariant size == old(size) && data == old(data) && data[..] == old(data[..])
        invariant bigger[..i] == data[..i]
      {
        bigger[i] := data[i];
      }
      data := bigger;
    }

    /** push_back; a full block doubles. */
    method PushBack(x: T)
      requires Valid()
      modifies this, data
      ensures Valid() && Contents() == old(Contents()) + [x]
      ensures data == old(data) || fresh(data)
      ensures data.Length == if old(size) < old(data.Length) then old(data.Length)
                             else if old(data.Length) == 0 then 1 else 2 * old(data.Length)
    {
      if size == data.Length {
        Reserve(if data.Length == 0 then 1 else data.Length * 2);
      }
      data[size] := x;
      size := size + 1;
    }

    /** pop_back; nothing happens to an empty vector. */
    method PopBack()
      requires Valid()
      modifies this`size
      ensures Valid() && Contents() == if old(Contents()) == [] then [] else old(Contents())[..old(size) - 1]
    {
      if size == 0 {
        return;
      }
      size := size - 1;
    }

    method SwapRemove(index: nat)
      requires Valid() && index < size
      modifies this`size, data
      ensures Valid() && Contents() == SwapRemoved(old(Contents()), index)
    {
      if index == size - 1 {
        PopBack();
        return;
      }
      data[index] := data[size - 1];
      PopBack();
    }

    /** erase moves the later elements down by one. */
    method Erase(index: nat)
      requires Valid() && index < size
      modifies this`size, data
      ensures Valid() && Contents() == old(Contents())[..index] + old(Contents())[index + 1..]
    {
      for i := index to size - 1
        invariant size == old(size)
        invariant forall k :: index <= k < i ==> data[k] == old(data[k + 1])
        invariant forall k :: 0 <= k < index || i <= k < data.Length ==> data[k] == old(data[k])
      {
        data[i] := data[i + 1];
      }
      size := size - 1;
    }
  }
}
