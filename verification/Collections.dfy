/** What the other modules need to know about sequences and sets in general. */
module Collections {
  import opened Outcomes

  lemma Associates<T>(x: seq<T>, y: seq<T>, z: seq<T>)
    ensures x + (y + z) == (x + y) + z
  {}

  lemma {:induction false} SubsetSize<T>(a: set<T>, b: set<T>)
    requires a <= b
    ensures |a| <= |b|
  {
    if x :| x in a {
      SubsetSize(a - {x}, b - {x});
    }
  }

  /** `iter().position(..)`: where the first item that matches is. */
  function Position<T>(items: seq<T>, matches: T -> bool): (r: Option<nat>)
    ensures r.Some? ==> r.value < |items| && matches(items[r.value])
    ensures r.Some? ==> forall j :: 0 <= j < r.value ==> !matches(items[j])
    ensures r.None? ==> forall item <- items :: !matches(item)
  {
    if items == [] then None
    else if matches(items[0]) then Some(0)
    else match Position(items[1..], matches)
      case None => None
      case Some(i) => Some(i + 1)
  }

  /** `iter().find(..)`: the first item that matches. */
  function Find<T>(items: seq<T>, matches: T -> bool): (r: Option<T>)
    ensures r.Some? ==> r.value in items && matches(r.value)
    ensures r.None? ==> forall item <- items :: !matches(item)
  {
    match Position(items, matches)
    case None => None
    case Some(i) => Some(items[i])
  }
}
