/** The mobile client's edits to the blocked-domain list, saved as two lists that are merged onto
    the base list at the next start (mobile/src-tauri/src/lib.rs). */
module EditJournal {

  predicate Distinct(xs: seq<string>) {
    forall i, j :: 0 <= i < j < |xs| ==> xs[i] != xs[j]
  }

  function Elements(xs: seq<string>): set<string> {
    set x | x in xs
  }

  /** The list without the element at `i`, as `Vec::remove`. */
  function RemoveAt(xs: seq<string>, i: nat): (r: seq<string>)
    requires i < |xs|
    ensures Distinct(xs) ==> Distinct(r) && Elements(r) == Elements(xs) - {xs[i]}
  {
    var r := xs[..i] + xs[i + 1..];
    assert forall x :: x in r <==> x in xs[..i] || x in xs[i + 1..];
    assert xs == xs[..i] + [xs[i]] + xs[i + 1..];
    r
  }

  /** The lists say how the current set differs from the base. */
  ghost predicate Records(base: set<string>, blocked: set<string>, added: seq<string>, removed: seq<string>) {
    && Distinct(added) && Distinct(removed)
    && Elements(added) !! base && Elements(removed) <= base
    && blocked == (base - Elements(removed)) + Elements(added)
  }

  /** A domain that comes back takes its removal out of the record; a new one is added to it. */
  lemma RecordsAdd(base: set<string>, blocked: set<string>, added: seq<string>, removed: seq<string>, d: string)
    requires Records(base, blocked, added, removed) && d !in blocked
    ensures d in removed ==> forall i :: 0 <= i < |removed| && removed[i] == d ==>
      Records(base, blocked + {d}, added, RemoveAt(removed, i))
    ensures d !in removed ==> Records(base, blocked + {d}, added + [d], removed)
  {
    assert forall x :: x in added <==> x in Elements(added);
    assert forall x :: x in removed <==> x in Elements(removed);
    assert Elements(added + [d]) == Elements(added) + {d};
  }

  lemma RecordsRemove(base: set<string>, blocked: set<string>, added: seq<string>, removed: seq<string>, d: string)
    requires Records(base, blocked, added, removed) && d in blocked
    ensures d in added ==> forall i :: 0 <= i < |added| && added[i] == d ==>
      Records(base, blocked - {d}, RemoveAt(added, i), removed)
    ensures d !in added ==> Records(base, blocked - {d}, added, removed + [d])
  {
    assert forall x :: x in added <==> x in Elements(added);
    assert forall x :: x in removed <==> x in Elements(removed);
    assert Elements(removed + [d]) == Elements(removed) + {d};
  }

  class Context {
    var blockedDomains: set<string>
    /** The saved lists. */
    var addedDomains: seq<string>
    var remedDomains: seq<string>
    /** The list the application was started with. */
    ghost var base: set<string>

    constructor (base: set<string>, added: seq<string>, removed: seq<string>)
      ensures this.base == blockedDomains == base && addedDomains == added && remedDomains == removed
    {
      this.base, blockedDomains, addedDomains, remedDomains := base, base, added, removed;
    }

    ghost predicate Valid()
      reads this
    {
      Records(base, blockedDomains, addedDomains, remedDomains)
    }

    method FindIndex(xs: seq<string>, domain: string) returns (i: int)
      ensures i == -1 <==> domain !in xs
      ensures i != -1 ==> 0 <= i < |xs| && xs[i] == domain
    {
      i := 0;
      while i < |xs|
        invariant 0 <= i <= |xs| && domain !in xs[..i]
      {
        if xs[i] == domain {
          return i;
        }
        i := i + 1;
      }
      return -1;
    }

    /** `add_domain`. */
    method AddDomain(domain: string)
      requires Valid()
      modifies this
      ensures Valid() && base == old(base) && blockedDomains == old(blockedDomains) + {domain}
      ensures domain in old(blockedDomains) ==> addedDomains == old(addedDomains) && remedDomains == old(remedDomains)
    {
      if domain !in blockedDomains {
        RecordsAdd(base, blockedDomains, addedDomains, remedDomains, domain);
        blockedDomains := blockedDomains + {domain};
        var index := FindIndex(remedDomains, domain);
        if index != -1 {
          remedDomains := RemoveAt(remedDomains, index);
        } else {
          addedDomains := addedDomains + [domain];
        }
      }
    }

    /** `remove_domain`. */
    method RemoveDomain(domain: string)
      requires Valid()
      modifies this
      ensures Valid() && base == old(base) && blockedDomains == old(blockedDomains) - {domain}
      ensures domain !in old(blockedDomains) ==> addedDomains == old(addedDomains) && remedDomains == old(remedDomains)
    {
      if domain in blockedDomains {
        RecordsRemove(base, blockedDomains, addedDomains, remedDomains, domain);
        blockedDomains := blockedDomains - {domain};
        var index := FindIndex(addedDomains, domain);
        if index != -1 {
          addedDomains := RemoveAt(addedDomains, index);
        } else {
          remedDomains := remedDomains + [domain];
        }
      }
    }

    /** `merge_domains`: applies the saved lists, keeping of each only what changed something. */
    method MergeDomains()
      modifies `blockedDomains, `addedDomains, `remedDomains
      ensures addedDomains == Fresh(old(addedDomains), old(blockedDomains))
      ensures remedDomains == Present(old(remedDomains), old(blockedDomains) + Elements(old(addedDomains)))
      ensures blockedDomains == (old(blockedDomains) + Elements(old(addedDomains))) - Elements(old(remedDomains))
    {
      MergeAdded();
      MergeRemoved();
    }

    method MergeAdded()
      modifies `blockedDomains, `addedDomains
      ensures addedDomains == Fresh(old(addedDomains), old(blockedDomains))
      ensures blockedDomains == old(blockedDomains) + Elements(old(addedDomains))
    {
      var newAdded := [];
      var i := 0;
      while i < |addedDomains|
        invariant i <= |addedDomains| && addedDomains == old(addedDomains)
        invariant blockedDomains == old(blockedDomains) + Elements(addedDomains[..i])
        invariant newAdded == Fresh(addedDomains[..i], old(blockedDomains))
      {
        var domain := addedDomains[i];
        ElementsAppend(addedDomains, i);
        if domain !in blockedDomains {
          blockedDomains := blockedDomains + {domain};
          newAdded := newAdded + [domain];
        }
        i := i + 1;
      }
      assert addedDomains[..i] == addedDomains;
      addedDomains := newAdded;
    }

    method MergeRemoved()
      modifies `blockedDomains, `remedDomains
      ensures remedDomains == Present(old(remedDomains), old(blockedDomains))
      ensures blockedDomains == old(blockedDomains) - Elements(old(remedDomains))
    {
      var newRemoved := [];
      var i := 0;
      while i < |remedDomains|
        invariant i <= |remedDomains| && remedDomains == old(remedDomains)
        invariant blockedDomains == old(blockedDomains) - Elements(remedDomains[..i])
        invariant newRemoved == Present(remedDomains[..i], old(blockedDomains))
      {
        var domain := remedDomains[i];
        ElementsAppend(remedDomains, i);
        if domain in blockedDomains {
          blockedDomains := blockedDomains - {domain};
          newRemoved := newRemoved + [domain];
        }
        i := i + 1;
      }
      assert remedDomains[..i] == remedDomains;
      remedDomains := newRemoved;
    }
  }

  lemma ElementsAppend(xs: seq<string>, i: nat)
    requires i < |xs|
    ensures Elements(xs[..i + 1]) == Elements(xs[..i]) + {xs[i]}
    ensures xs[..i + 1][..i] == xs[..i] && xs[..i + 1][i] == xs[i]
  {
    assert xs[..i + 1] == xs[..i] + [xs[i]];
  }

  /** The entries whose insertion, in order, adds something to `s`. */
  function Fresh(xs: seq<string>, s: set<string>): seq<string> {
    if xs == [] then []
    else
      var last, front := xs[|xs| - 1], xs[..|xs| - 1];
      Fresh(front, s) + if last in s || last in front then [] else [last]
  }

  /** The entries whose removal, in order, takes something from `s`. */
  function Present(xs: seq<string>, s: set<string>): seq<string> {
    if xs == [] then []
    else
      var last, front := xs[|xs| - 1], xs[..|xs| - 1];
      Present(front, s) + if last in s && last !in front then [last] else []
  }

  lemma {:induction false} FreshAll(xs: seq<string>, s: set<string>)
    requires Distinct(xs) && Elements(xs) !! s
    ensures Fresh(xs, s) == xs
  {
    if xs != [] {
      var last, front := xs[|xs| - 1], xs[..|xs| - 1];
      assert last in Elements(xs) && forall x :: x in front ==> x in Elements(xs);
      FreshAll(front, s);
      assert xs == front + [last];
    }
  }

  lemma {:induction false} FreshNone(xs: seq<string>, s: set<string>)
    requires Elements(xs) <= s
    ensures Fresh(xs, s) == []
  {
    if xs != [] {
      var last, front := xs[|xs| - 1], xs[..|xs| - 1];
      assert last in Elements(xs) && forall x :: x in front ==> x in Elements(xs);
      FreshNone(front, s);
    }
  }

  lemma {:induction false} PresentAll(xs: seq<string>, s: set<string>)
    requires Distinct(xs) && Elements(xs) <= s
    ensures Present(xs, s) == xs
  {
    if xs != [] {
      var last, front := xs[|xs| - 1], xs[..|xs| - 1];
      assert last in Elements(xs) && forall x :: x in front ==> x in Elements(xs);
      PresentAll(front, s);
      assert xs == front + [last];
    }
  }

  lemma {:induction false} PresentNone(xs: seq<string>, s: set<string>)
    requires Elements(xs) !! s
    ensures Present(xs, s) == []
  {
    if xs != [] {
      var last, front := xs[|xs| - 1], xs[..|xs| - 1];
      assert last in Elements(xs) && forall x :: x in front ==> x in Elements(xs);
      PresentNone(front, s);
    }
  }

  /** Merging recorded lists onto the base they were recorded against rebuilds the edited set and
      keeps both lists. */
  lemma MergeReplays(base: set<string>, blocked: set<string>, added: seq<string>, removed: seq<string>)
    requires Records(base, blocked, added, removed)
    ensures (base + Elements(added)) - Elements(removed) == blocked
    ensures Fresh(added, base) == added && Present(removed, base + Elements(added)) == removed
  {
    FreshAll(added, base);
    PresentAll(removed, base + Elements(added));
  }

  /** Whatever the base is, merging saved lists onto it leaves a valid record exactly if no domain
      outside the base is in both lists. */
  lemma MergeRecords(base: set<string>, added: seq<string>, removed: seq<string>)
    ensures Records(base, (base + Elements(added)) - Elements(removed),
                    Fresh(added, base), Present(removed, base + Elements(added)))
            <==> Elements(added) * Elements(removed) <= base
  {
    hide Elements, Fresh, Present, Distinct;
    FreshElements(added, base);
    PresentElements(removed, base + Elements(added));
    var a, r := Elements(added), Elements(removed);
    assert a * r <= r * (base + a);
    if a * r <= base {
      assert r * (base + a) <= base;
      assert (base + a) - r == (base - r * (base + a)) + (a - base);
    }
  }

  lemma {:induction false} FreshElements(xs: seq<string>, s: set<string>)
    ensures Distinct(Fresh(xs, s)) && Elements(Fresh(xs, s)) == Elements(xs) - s
  {
    if xs != [] {
      var last, front := xs[|xs| - 1], xs[..|xs| - 1];
      FreshElements(front, s);
      assert xs == front + [last];
      assert Elements(xs) == Elements(front) + {last};
      var r := Fresh(front, s);
      assert forall x :: x in r <==> x in Elements(r);
      assert Elements(r + [last]) == Elements(r) + {last} && r + [] == r;
    }
  }

  lemma {:induction false} PresentElements(xs: seq<string>, s: set<string>)
    ensures Distinct(Present(xs, s)) && Elements(Present(xs, s)) == Elements(xs) * s
  {
    if xs != [] {
      var last, front := xs[|xs| - 1], xs[..|xs| - 1];
      PresentElements(front, s);
      assert xs == front + [last];
      assert Elements(xs) == Elements(front) + {last};
      var r := Present(front, s);
      assert forall x :: x in r <==> x in Elements(r);
      assert Elements(r + [last]) == Elements(r) + {last} && r + [] == r;
    }
  }

  /** A second merge in the same run empties both saved lists, so the next start rebuilds the base:
      the edits survive exactly if there were none. */
  lemma SecondMergeForgets(base: set<string>, blocked: set<string>, added: seq<string>, removed: seq<string>)
    requires Records(base, blocked, added, removed)
    ensures Fresh(added, blocked) == [] && Present(removed, blocked + Elements(added)) == []
    ensures (blocked + Elements(added)) - Elements(removed) == blocked
    ensures Records(base, blocked, Fresh(added, blocked), Present(removed, blocked + Elements(added))) <==>
              added == [] && removed == []
  {
    FreshNone(added, blocked);
    assert blocked + Elements(added) == blocked;
    assert Elements(removed) !! blocked;
    PresentNone(removed, blocked);
    if added != [] { assert added[0] in Elements(added); }
    if removed != [] { assert removed[0] in Elements(removed); }
  }

  datatype Edit = Add(domain: string) | Remove(domain: string)

  function Edited(blocked: set<string>, edits: seq<Edit>): set<string> {
    if edits == [] then blocked
    else
      var last, before := edits[|edits| - 1], Edited(blocked, edits[..|edits| - 1]);
      if last.Add? then before + {last.domain} else before - {last.domain}
  }

  /** A start of the application with saved lists. */
  method Start(base: set<string>, added: seq<string>, removed: seq<string>) returns (c: Context)
    requires Elements(added) * Elements(removed) <= base
    ensures fresh(c) && c.Valid() && c.base == base
    ensures c.blockedDomains == (base + Elements(added)) - Elements(removed)
    ensures c.addedDomains == Fresh(added, base) && c.remedDomains == Present(removed, base + Elements(added))
  {
    hide Elements, Fresh, Present, Distinct;
    c := new Context(base, added, removed);
    c.MergeDomains();
    MergeRecords(base, added, removed);
  }

  method Apply(c: Context, edits: seq<Edit>)
    requires c.Valid()
    modifies c
    ensures c.Valid() && c.base == old(c.base) && c.blockedDomains == Edited(old(c.blockedDomains), edits)
  {
    hide Records;
    var i := 0;
    while i < |edits|
      invariant i <= |edits| && c.Valid() && c.base == old(c.base)
      invariant c.blockedDomains == Edited(old(c.blockedDomains), edits[..i])
    {
      assert edits[..i + 1][..i] == edits[..i];
      match edits[i] {
        case Add(domain) => c.AddDomain(domain);
        case Remove(domain) => c.RemoveDomain(domain);
      }
      i := i + 1;
    }
    assert edits[..i] == edits;
  }

  /** One start with saved lists, any edits, then a restart from the same base: the restart ends
      up with the set the edits had produced, and with the same saved lists. */
  method EditAndRestart(base: set<string>, added: seq<string>, removed: seq<string>, edits: seq<Edit>)
    returns (before: Context, after: Context)
    requires Elements(added) * Elements(removed) <= base
    ensures before.Valid() && after.Valid() && before.base == after.base == base
    ensures after.blockedDomains == before.blockedDomains == Edited((base + Elements(added)) - Elements(removed), edits)
    ensures after.addedDomains == before.addedDomains && after.remedDomains == before.remedDomains
  {
    hide Elements, Fresh, Present, Distinct, Edited;
    before := Start(base, added, removed);
    Apply(before, edits);
    MergeReplays(base, before.blockedDomains, before.addedDomains, before.remedDomains);
    after := Start(base, before.addedDomains, before.remedDomains);
  }
}
