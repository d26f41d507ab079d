/** Picking some keys out of the order in which a loop visits them. */
module Orders {
  import Hub

  /** The members of `who`, in the order in which `order` meets them. */
  function Chosen<T(==)>(order: seq<T>, who: set<T>): seq<T> {
    if order == [] then []
    else
      var k := order[|order| - 1];
      Chosen(order[..|order| - 1], who) + (if k in who then [k] else [])
  }

  ghost predicate Distinct<T>(order: seq<T>) {
    forall i, j :: 0 <= i < j < |order| ==> order[i] != order[j]
  }

  lemma {:induction false} ChosenMembers<T(!new)>(order: seq<T>, who: set<T>)
    ensures forall k :: k in Chosen(order, who) <==> k in order && k in who
  {
    if order != [] {
      var init, last := order[..|order| - 1], order[|order| - 1];
      ChosenMembers(init, who);
      assert forall k :: k in order <==> k in init || k == last;
    }
  }

  lemma LastIsNew<T>(order: seq<T>)
    requires Distinct(order) && order != []
    ensures order[|order| - 1] !in order[..|order| - 1]
  {
    var init := order[..|order| - 1];
    forall i | 0 <= i < |init| ensures init[i] != order[|order| - 1] {
      assert init[i] == order[i];
    }
  }

  lemma {:induction false} ChosenIsDistinct<T(!new)>(order: seq<T>, who: set<T>)
    requires Distinct(order)
    ensures Distinct(Chosen(order, who))
  {
    if order != [] {
      var init := order[..|order| - 1];
      ChosenIsDistinct(init, who);
      ChosenMembers(init, who);
      LastIsNew(order);
    }
  }

  lemma ChosenIsOrder<T(!new)>(order: seq<T>, keys: set<T>, who: set<T>)
    requires Hub.IsOrder(order, keys) && who <= keys
    ensures Hub.IsOrder(Chosen(order, who), who)
  {
    ChosenMembers(order, who);
    ChosenIsDistinct(order, who);
  }
}
