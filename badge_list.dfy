/**
 * `AlunoResponse.parse_badges` (`app/schemas/aluno.py`): the validator that turns a
 * student's badge associations into the badges themselves before serialisation.
 */
module BadgeList {
  import opened Wrappers
  import opened Entities

  /** An item of the list handed to the validator: an `AlunoBadge` association row (it has a
      `badge` attribute), or an item already in badge form. */
  datatype BadgeItem =
    | AlunoBadgeRow(matricula: string, badgeId: int, dataConquista: Date, badge: Badge)
    | BadgeRow(row: Badge)

  /** One item after the validator: an association becomes its badge, anything else is kept. */
  function Unwrap(item: BadgeItem): (r: BadgeItem)
  {
    match item
    case AlunoBadgeRow(_, _, _, b) => BadgeRow(b)
    case BadgeRow(_) => item
  }

  /** The validator applied to a list, item by item. */
  function Unwrapped(items: seq<BadgeItem>): (r: seq<BadgeItem>)
    ensures |r| == |items|
    ensures forall i :: 0 <= i < |items| ==> r[i] == Unwrap(items[i])
  {
    if items == [] then [] else [Unwrap(items[0])] + Unwrapped(items[1..])
  }

  /** `parse_badges`: a falsy input (`None` or an empty list) gives `[]`; otherwise the
      `cleaned_badges` list is built by appending one item per input item. */
  method ParseBadges(v: Option<seq<BadgeItem>>) returns (cleaned: seq<BadgeItem>)
    ensures v.None? || v.value == [] ==> cleaned == []
    ensures v.Some? ==> |cleaned| == |v.value|
    ensures v.Some? ==> forall i :: 0 <= i < |v.value| ==>
      (v.value[i].AlunoBadgeRow? ==> cleaned[i] == BadgeRow(v.value[i].badge))
      && (v.value[i].BadgeRow? ==> cleaned[i] == v.value[i])
    ensures v.Some? ==> cleaned == Unwrapped(v.value)
  {
    if v.None? || v.value == [] {
      return [];
    }
    var items := v.value;
    cleaned := [];
    for i := 0 to |items|
      invariant |cleaned| == i
      invariant forall k :: 0 <= k < i ==> cleaned[k] == Unwrap(items[k])
    {
      var item := items[i];
      if item.AlunoBadgeRow? {
        cleaned := cleaned + [BadgeRow(item.badge)];
      } else {
        cleaned := cleaned + [item];
      }
    }
  }

  /** A list that holds only badges comes back unchanged: the already-formatted case. */
  lemma {:induction false} UnwrappedKeepsBadges(items: seq<BadgeItem>)
    requires forall i :: 0 <= i < |items| ==> items[i].BadgeRow?
    ensures Unwrapped(items) == items
  {
    if items != [] {
      UnwrappedKeepsBadges(items[1..]);
    }
  }

  /** Applying the validator to its own output changes nothing. */
  lemma {:induction false} UnwrappedIdempotent(items: seq<BadgeItem>)
    ensures Unwrapped(Unwrapped(items)) == Unwrapped(items)
  {
    UnwrappedKeepsBadges(Unwrapped(items));
  }

  /** The validator commutes with concatenation, so it keeps the order of the input. */
  lemma {:induction false} UnwrappedAppend(xs: seq<BadgeItem>, ys: seq<BadgeItem>)
    ensures Unwrapped(xs + ys) == Unwrapped(xs) + Unwrapped(ys)
  {
    var l, r := Unwrapped(xs + ys), Unwrapped(xs) + Unwrapped(ys);
    assert |l| == |r|;
    forall i | 0 <= i < |l| ensures l[i] == r[i] {
      if i < |xs| {
        assert (xs + ys)[i] == xs[i];
      } else {
        assert (xs + ys)[i] == ys[i - |xs|];
      }
    }
  }
}
