/** The bounded history behind `SerialConnection.AddSerialDataToList`
    (Serial/SerialConnection.cs): a new record goes at the end, and when the
    list then holds more than 5000 records the oldest one is dropped. */
module History {

  const Capacity: nat := 5000

  /** The list after `DataList.Add(x)` and, when that took it past
      `Capacity`, `DataList.RemoveAt(0)`. */
  function Appended<T>(items: seq<T>, x: T): (r: seq<T>)
    ensures |r| > 0 && r[|r| - 1] == x
  {
    var grown := items + [x];
    if |grown| > Capacity then grown[1..] else grown
  }

  /** The list after appending every record of `arrivals`, one at a time. */
  function AppendedAll<T>(items: seq<T>, arrivals: seq<T>): seq<T>
    decreases arrivals
  {
    if arrivals == [] then items else AppendedAll(Appended(items, arrivals[0]), arrivals[1..])
  }

  /** The newest `Capacity` entries of `s`. */
  function Window<T>(s: seq<T>): (w: seq<T>)
    ensures |w| <= Capacity
  {
    if |s| <= Capacity then s else s[|s| - Capacity..]
  }

  /** One append from a list within the bound: the list stays within the
      bound; below the bound nothing is dropped; at the bound exactly one
      entry, the oldest, is dropped and never the new one. */
  lemma AppendedShape<T>(items: seq<T>, x: T)
    requires |items| <= Capacity
    ensures |Appended(items, x)| <= Capacity
    ensures |items| < Capacity ==> Appended(items, x) == items + [x]
    ensures |items| == Capacity ==> Appended(items, x) == items[1..] + [x]
  {
    if |items| == Capacity {
      assert (items + [x])[1..] == items[1..] + [x];
    }
  }

  /** Dropping entries from the front that a window would drop anyway does
      not change the window. */
  lemma WindowOfSuffix<T>(s: seq<T>, k: nat, rest: seq<T>)
    requires k <= |s| && |s| - k >= (if |s| < Capacity then |s| else Capacity)
    ensures Window(s[k..] + rest) == Window(s + rest)
  {
    if k > 0 {
      assert |s| > Capacity;
      var a, b := s[k..] + rest, s + rest;
      assert a == b[k..];
      assert |a| >= Capacity;
      assert a[|a| - Capacity..] == b[|b| - Capacity..];
    }
  }

  /** However many records arrive, the list holds exactly the newest
      `Capacity` of everything appended: eviction is first in, first out. */
  lemma {:induction false} AppendedAllIsWindow<T>(items: seq<T>, arrivals: seq<T>)
    requires |items| <= Capacity
    ensures AppendedAll(items, arrivals) == Window(items + arrivals)
    decreases arrivals
  {
    if arrivals == [] {
      assert items + arrivals == items;
    } else {
      var x := arrivals[0];
      var next := Appended(items, x);
      AppendedShape(items, x);
      AppendedAllIsWindow(next, arrivals[1..]);
      assert items + arrivals == (items + [x]) + arrivals[1..];
      if |items + [x]| > Capacity {
        WindowOfSuffix(items + [x], 1, arrivals[1..]);
      } else {
        assert next == items + [x];
      }
    }
  }
}
