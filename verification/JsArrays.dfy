/**
 JS arrays: a dense buffer of slots, of which the first `length` are the array.  Slots behind the
 length keep whatever was stored there before.
 */
module JsArrays {

  datatype Slot<T> = Undefined | Item(value: T)

  predicate NoUndefined<T>(s: seq<Slot<T>>) {
    forall i :: 0 <= i < |s| ==> s[i].Item?
  }

  /** The slots in order, those that are undefined left out. */
  function Compact<T>(s: seq<Slot<T>>): (r: seq<Slot<T>>)
    ensures |r| <= |s| && NoUndefined(r)
    ensures NoUndefined(s) ==> r == s
    ensures !NoUndefined(s) ==> |r| < |s|
  {
    if s == [] then []
    else
      var rest := Compact(s[..|s| - 1]);
      assert s == s[..|s| - 1] + [s[|s| - 1]];
      if s[|s| - 1].Undefined? then rest else rest + [s[|s| - 1]]
  }

  /** The buffer with room for `n` slots. */
  function Padded<T>(s: seq<Slot<T>>, n: nat): (r: seq<Slot<T>>)
    ensures |r| == if n <= |s| then |s| else n
    ensures forall i :: 0 <= i < |r| ==> r[i] == if i < |s| then s[i] else Undefined
  {
    if n <= |s| then s else s + seq(n - |s|, _ => Undefined)
  }

  class JsArray<T> {
    var elements: seq<Slot<T>>
    var length: nat

    ghost predicate Valid()
      reads this
    {
      length <= |elements|
    }

    ghost function Contents(): (s: seq<Slot<T>>)
      reads this
      requires Valid()
      ensures |s| == length
    {
      elements[..length]
    }

    constructor ()
      ensures Valid() && Contents() == [] && elements == []
    {
      elements := [];
      length := 0;
    }

    function Get(i: nat): Slot<T>
      reads this
      requires Valid()
    {
      if i < length then elements[i] else Undefined
    }

    /**
     `lr_set_property_uint32`.  Storing behind the end makes the array longer, and brings back what
     the buffer still held between the end and the new element.
     */
    method Set(i: nat, v: Slot<T>)
      requires Valid()
      modifies this
      ensures Valid() && length == if i < old(length) then old(length) else i + 1
      ensures Get(i) == v
      ensures forall j: nat :: j != i && (j < old(length) || i <= j) ==> Get(j) == old(Get(j))
      ensures forall j: nat :: old(length) <= j < i ==> Get(j) == Padded(old(elements), i + 1)[j]
      ensures elements == Padded(old(elements), i + 1)[i := v]
    {
      elements := Padded(elements, i + 1)[i := v];
      if i >= length {
        length := i + 1;
      }
    }

    method SetLength(n: nat)
      requires Valid()
      modifies this
      ensures Valid() && length == n && elements == Padded(old(elements), n)
    {
      elements := Padded(elements, n);
      length := n;
    }
  }

  /** A position counted from the start, or from the end when negative, within the array. */
  function Relative(position: int, length: nat): (r: nat)
    ensures r <= length
  {
    if position >= length then length
    else if position >= 0 then position
    else if length + position >= 0 then length + position
    else 0
  }

  /** A negative position is that far from the end. */
  lemma RelativeLands(position: int, length: nat)
    ensures 0 <= position <= length ==> Relative(position, length) == position
    ensures 0 <= -position <= length && position != 0 ==> length - Relative(position, length) == -position
    ensures position > length ==> Relative(position, length) == length
    ensures -position > length ==> Relative(position, length) == 0
  {
  }
}
