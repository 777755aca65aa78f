/** The fixed-size shift buffer of forget.h: it keeps the last `sz` items
    remembered, oldest first, and forgets older ones. */
module ForgetWindow {

  /** The window a buffer of size sz holds after remembering `history`:
      the last sz entries of sz default values followed by the history. */
  function Window<T>(dflt: T, sz: nat, history: seq<T>): (r: seq<T>)
    ensures |r| == sz
  {
    var all := seq(sz, _ => dflt) + history;
    all[|all| - sz..]
  }

  /** Remembering one more item drops the window's oldest entry and appends
      the item. */
  lemma WindowShift<T>(dflt: T, sz: nat, history: seq<T>, item: T)
    requires sz >= 1
    ensures Window(dflt, sz, history + [item]) == Window(dflt, sz, history)[1..] + [item]
  {
    var all := seq(sz, _ => dflt) + history;
    assert seq(sz, _ => dflt) + (history + [item]) == all + [item];
  }

  /** Once at least sz items were remembered, the window is exactly the last
      sz of them in arrival order; before that, it is padded in front with
      the default value. */
  lemma WindowContents<T>(dflt: T, sz: nat, history: seq<T>)
    ensures |history| >= sz ==> Window(dflt, sz, history) == history[|history| - sz..]
    ensures |history| < sz ==> Window(dflt, sz, history) == seq(sz - |history|, _ => dflt) + history
  {
    var all := seq(sz, _ => dflt) + history;
    if |history| < sz {
      assert all[|all| - sz..] == seq(sz - |history|, _ => dflt) + history;
    } else {
      assert all[|all| - sz..] == history[|history| - sz..];
    }
  }

  class Forget<T> {
    /** `size()`: the number of slots; it never changes. */
    const sz: nat
    /** The value the slots start with. */
    const dflt: T
    /** `items`, oldest first; iteration runs over it in this order. */
    const items: array<T>
    /** `count()`: how many times `remember` ran. */
    var ct: int
    /** Every item remembered so far, in order. */
    ghost var history: seq<T>

    ghost predicate Valid()
      reads this, items
    {
      && items.Length == sz
      && items[..] == Window(dflt, sz, history)
      && ct == |history|
    }

    /** `Forget(sz, default_value)`: sz copies of the default and a count
        of 0.  A negative size is not modelled. */
    constructor (size: nat, defaultValue: T)
      ensures Valid() && fresh(items)
      ensures sz == size && dflt == defaultValue && history == []
      ensures items[..] == seq(size, _ => defaultValue) && ct == 0
    {
      sz := size;
      dflt := defaultValue;
      items := new T[size](_ => defaultValue);
      ct := 0;
      history := [];
    }

    /** `remember(item)`: counts one more call, moves every slot one place
        toward the front (dropping slot 0) and stores item in the last slot.
        The size must be at least 1, since slot sz - 1 is written. */
    method Remember(item: T)
      requires Valid() && sz >= 1
      modifies this, items
      ensures Valid()
      ensures ct == old(ct) + 1
      ensures history == old(history) + [item]
      ensures items[..] == old(items[1..]) + [item]
    {
      ct := ct + 1;
      var i := 1;
      while i < sz
        invariant 1 <= i <= sz
        invariant ct == old(ct) + 1 && history == old(history)
        invariant forall j :: 0 <= j < i - 1 ==> items[j] == old(items[j + 1])
        invariant forall j :: i - 1 <= j < sz ==> items[j] == old(items[j])
      {
        items[i - 1] := items[i];
        i := i + 1;
      }
      items[sz - 1] := item;
      assert items[..] == old(items[1..]) + [item];
      WindowShift(dflt, sz, history, item);
      history := history + [item];
    }
  }
}
