/** Value-level specification of the manager's bookkeeping: the name map
    an insertion run leaves behind, the atlas list an unload leaves behind,
    and the facts about them that the manager's contracts rely on. */
module Registry {
  import opened Atlases

  /** The set of names listed in `names`. */
  function NameSet(names: seq<string>): set<string>
  {
    set n | n in names
  }

  /** No name is listed twice. */
  predicate Distinct(names: seq<string>)
  {
    forall i, j :: 0 <= i < j < |names| ==> names[i] != names[j]
  }

  lemma DistinctAppend(x: seq<string>, y: seq<string>)
    ensures Distinct(x + y) <==> Distinct(x) && Distinct(y) && NameSet(x) !! NameSet(y)
  {
    assert forall i :: 0 <= i < |x| ==> (x + y)[i] == x[i];
    assert forall j :: 0 <= j < |y| ==> (x + y)[|x| + j] == y[j];
    if Distinct(x + y) {
      forall n | n in NameSet(x)
        ensures n !in NameSet(y)
      {
        var i :| 0 <= i < |x| && x[i] == n;
        forall j | 0 <= j < |y|
          ensures y[j] != n
        {
          assert (x + y)[i] != (x + y)[|x| + j];
        }
      }
    }
    if Distinct(x) && Distinct(y) && NameSet(x) !! NameSet(y) {
      forall i, j | 0 <= i < j < |x + y|
        ensures (x + y)[i] != (x + y)[j]
      {
        if j < |x| {
        } else if i >= |x| {
          assert (x + y)[i] == y[i - |x|] && (x + y)[j] == y[j - |x|];
        } else {
          assert (x + y)[i] in NameSet(x) && (x + y)[j] in NameSet(y);
        }
      }
    }
  }

  // ---------------------------------------------------------------------
  // Insertion of an atlas's elements into the global name map
  // ---------------------------------------------------------------------

  /** The position at which inserting `names` one by one into a map whose
      keys are `keys` first meets a name that is already a key: either a
      key from the start, or a name inserted earlier in the same run.
      `|names|` when every name is new. */
  function FirstClash(keys: set<string>, names: seq<string>): (k: nat)
    ensures k <= |names|
    decreases |names|
  {
    if names == [] || names[0] in keys then 0
    else 1 + FirstClash(keys + {names[0]}, names[1..])
  }

  /** What FirstClash means: every name before it is new to `keys` and
      listed once, and the name at it (if any) is a key or repeats an
      earlier name. */
  lemma {:induction false} FirstClashSpec(keys: set<string>, names: seq<string>)
    ensures forall i :: 0 <= i < FirstClash(keys, names) ==> names[i] !in keys
    ensures Distinct(names[..FirstClash(keys, names)])
    ensures FirstClash(keys, names) < |names| ==>
      names[FirstClash(keys, names)] in keys || names[FirstClash(keys, names)] in names[..FirstClash(keys, names)]
    decreases |names|
  {
    if names != [] && names[0] !in keys {
      var keys' := keys + {names[0]};
      var rest := names[1..];
      var k' := FirstClash(keys', rest);
      FirstClashSpec(keys', rest);
      var k := 1 + k';
      assert names[..k] == [names[0]] + rest[..k'];
      forall i | 0 <= i < k
        ensures names[i] !in keys
      {
        if i > 0 {
          assert names[i] == rest[i - 1];
        }
      }
      assert NameSet([names[0]]) !! NameSet(rest[..k']) by {
        forall j | 0 <= j < k'
          ensures rest[..k'][j] != names[0]
        {
          assert rest[j] !in keys';
        }
      }
      DistinctAppend([names[0]], rest[..k']);
      if k < |names| {
        assert names[k] == rest[k'];
        if rest[k'] in rest[..k'] {
          var j :| 0 <= j < k' && rest[..k'][j] == rest[k'];
          assert names[..k][j + 1] == names[k];
        } else if names[k] == names[0] {
          assert names[..k][0] == names[k];
        }
      }
    }
  }

  /** Inserting the names one by one, the name at position `e` is already
      a key exactly when `e` is the first clash. */
  lemma ClashAt(keys: set<string>, names: seq<string>, e: nat)
    requires e < |names| && e <= FirstClash(keys, names)
    ensures names[e] in keys + NameSet(names[..e]) <==> e == FirstClash(keys, names)
  {
    var k := FirstClash(keys, names);
    FirstClashSpec(keys, names);
    if e < k {
      assert names[e] !in keys;
      forall j | 0 <= j < e
        ensures names[j] != names[e]
      {
        assert names[..k][j] != names[..k][e];
      }
    }
  }

  /** The map after inserting each of `es` under its own name, in order. */
  function InsertAll(m: map<string, Element>, es: seq<Element>): map<string, Element>
    decreases |es|
  {
    if es == [] then m
    else InsertAll(m, es[..|es| - 1])[es[|es| - 1].name := es[|es| - 1]]
  }

  /** The keys InsertAll leaves are the old keys plus the inserted names,
      and each entry is either an inserted element filed under its own
      name or an untouched old entry. */
  lemma {:induction false} InsertAllKeys(m: map<string, Element>, es: seq<Element>)
    ensures InsertAll(m, es).Keys == m.Keys + NameSet(NamesOf(es))
    ensures forall n :: n in InsertAll(m, es) ==>
      (InsertAll(m, es)[n] in es && InsertAll(m, es)[n].name == n) || (n in m && InsertAll(m, es)[n] == m[n])
    decreases |es|
  {
    if es == [] {
      assert NameSet(NamesOf(es)) == {};
    } else {
      var init := es[..|es| - 1];
      var last := es[|es| - 1];
      InsertAllKeys(m, init);
      assert NamesOf(es) == NamesOf(init) + [last.name];
      assert NameSet(NamesOf(es)) == NameSet(NamesOf(init)) + {last.name};
      var r := InsertAll(m, es);
      forall n | n in r
        ensures (r[n] in es && r[n].name == n) || (n in m && r[n] == m[n])
      {
        if n != last.name && InsertAll(m, init)[n] in init {
          var i :| 0 <= i < |init| && init[i] == r[n];
          assert es[i] == r[n];
        }
      }
    }
  }

  /** One more step of the insertion run. */
  lemma InsertAllStep(m: map<string, Element>, es: seq<Element>, e: nat)
    requires e < |es|
    ensures InsertAll(m, es[..e + 1]) == InsertAll(m, es[..e])[es[e].name := es[e]]
  {
    assert es[..e + 1][..e] == es[..e];
  }

  /** Inserting the first `e` elements without a clash, element `e`'s name
      is already in the map exactly when `e` is the first clash. */
  lemma ClashTest(m: map<string, Element>, es: seq<Element>, e: nat)
    requires e < |es| && e <= FirstClash(m.Keys, NamesOf(es))
    ensures es[e].name in InsertAll(m, es[..e]) <==> e == FirstClash(m.Keys, NamesOf(es))
  {
    InsertAllKeys(m, es[..e]);
    assert NamesOf(es[..e]) == NamesOf(es)[..e];
    ClashAt(m.Keys, NamesOf(es), e);
  }

  /** Inserting elements whose names are pairwise distinct and new to the
      map maps each name to its own element and keeps every earlier entry. */
  lemma {:induction false} InsertAllFresh(m: map<string, Element>, es: seq<Element>)
    requires Distinct(NamesOf(es))
    requires NameSet(NamesOf(es)) !! m.Keys
    ensures forall n :: n in m ==> n in InsertAll(m, es) && InsertAll(m, es)[n] == m[n]
    ensures forall i :: 0 <= i < |es| ==>
      es[i].name in InsertAll(m, es) && InsertAll(m, es)[es[i].name] == es[i]
    decreases |es|
  {
    if es != [] {
      var init := es[..|es| - 1];
      var last := es[|es| - 1];
      LastNameFresh(m, es);
      InsertAllFresh(m, init);
      var before := InsertAll(m, init);
      var after := InsertAll(m, es);
      assert after == before[last.name := last];
      forall n | n in m
        ensures after[n] == m[n]
      {
        assert n != last.name;
      }
      forall i | 0 <= i < |es|
        ensures after[es[i].name] == es[i]
      {
        if i < |es| - 1 {
          assert es[i] == init[i];
        }
      }
    }
  }

  /** Under the same conditions, the map gains exactly one entry per
      element. */
  lemma {:induction false} InsertAllFreshSize(m: map<string, Element>, es: seq<Element>)
    requires Distinct(NamesOf(es))
    requires NameSet(NamesOf(es)) !! m.Keys
    ensures |InsertAll(m, es)| == |m| + |es|
    decreases |es|
  {
    if es != [] {
      var init := es[..|es| - 1];
      var last := es[|es| - 1];
      LastNameFresh(m, es);
      InsertAllFreshSize(m, init);
      assert InsertAll(m, es) == InsertAll(m, init)[last.name := last];
    }
  }

  /** The induction step of InsertAllFresh: the prefix still meets its
      requirements, and the last name is new to the map built from it. */
  lemma LastNameFresh(m: map<string, Element>, es: seq<Element>)
    requires es != []
    requires Distinct(NamesOf(es))
    requires NameSet(NamesOf(es)) !! m.Keys
    ensures Distinct(NamesOf(es[..|es| - 1]))
    ensures NameSet(NamesOf(es[..|es| - 1])) !! m.Keys
    ensures es[|es| - 1].name !in InsertAll(m, es[..|es| - 1])
    ensures forall i :: 0 <= i < |es| - 1 ==> es[i].name != es[|es| - 1].name
  {
    var init := es[..|es| - 1];
    var names := NamesOf(es);
    assert names == NamesOf(init) + [es[|es| - 1].name];
    DistinctAppend(NamesOf(init), [es[|es| - 1].name]);
    InsertAllKeys(m, init);
    forall i | 0 <= i < |es| - 1
      ensures es[i].name != es[|es| - 1].name
    {
      assert names[i] != names[|es| - 1];
    }
  }

  /** Inserting elements up to the first clash adds exactly one entry per
      element inserted. */
  lemma InsertUpToClashSize(m0: map<string, Element>, es: seq<Element>)
    ensures |InsertAll(m0, es[..FirstClash(m0.Keys, NamesOf(es))])|
         == |m0| + FirstClash(m0.Keys, NamesOf(es))
  {
    var names := NamesOf(es);
    var k := FirstClash(m0.Keys, names);
    FirstClashSpec(m0.Keys, names);
    assert NamesOf(es[..k]) == names[..k];
    forall n | n in NameSet(names[..k])
      ensures n !in m0.Keys
    {
      var i :| 0 <= i < k && names[..k][i] == n;
    }
    InsertAllFreshSize(m0, es[..k]);
  }

  /** Inserting elements up to the first clash never overwrites an entry,
      and files each inserted element under its own name. */
  lemma InsertUpToClashFiles(m0: map<string, Element>, es: seq<Element>)
    ensures forall n :: n in m0 ==>
      n in InsertAll(m0, es[..FirstClash(m0.Keys, NamesOf(es))])
      && InsertAll(m0, es[..FirstClash(m0.Keys, NamesOf(es))])[n] == m0[n]
    ensures forall i :: 0 <= i < FirstClash(m0.Keys, NamesOf(es)) ==>
      es[i].name in InsertAll(m0, es[..FirstClash(m0.Keys, NamesOf(es))])
      && InsertAll(m0, es[..FirstClash(m0.Keys, NamesOf(es))])[es[i].name] == es[i]
  {
    var names := NamesOf(es);
    var k := FirstClash(m0.Keys, names);
    FirstClashSpec(m0.Keys, names);
    assert NamesOf(es[..k]) == names[..k];
    forall n | n in NameSet(names[..k])
      ensures n !in m0.Keys
    {
      var i :| 0 <= i < k && names[..k][i] == n;
    }
    InsertAllFresh(m0, es[..k]);
    forall i | 0 <= i < k
      ensures es[..k][i] == es[i]
    {
    }
  }

  // ---------------------------------------------------------------------
  // The loaded-atlas list
  // ---------------------------------------------------------------------

  /** Some atlas in `atlases` is called `name`. */
  predicate Contains(atlases: seq<Atlas>, name: string)
  {
    exists i :: 0 <= i < |atlases| && atlases[i].name == name
  }

  /** Atlas indices strictly increase along the list. */
  predicate Increasing(atlases: seq<Atlas>)
  {
    forall i, j :: 0 <= i < j < |atlases| ==> atlases[i].index < atlases[j].index
  }

  /** The atlases not called `name`, in their original order. */
  function Keep(atlases: seq<Atlas>, name: string): seq<Atlas>
    decreases |atlases|
  {
    if atlases == [] then []
    else if atlases[0].name == name then Keep(atlases[1..], name)
    else [atlases[0]] + Keep(atlases[1..], name)
  }

  /** `Keep` removes exactly the atlases called `name`: it never grows the
      list, keeps every other atlas and nothing else, leaves none called
      `name`, and shortens the list exactly when one was there. */
  lemma {:induction false} KeepSpec(atlases: seq<Atlas>, name: string)
    ensures |Keep(atlases, name)| <= |atlases|
    ensures forall a :: a in Keep(atlases, name) ==> a in atlases && a.name != name
    ensures forall a :: a in atlases && a.name != name ==> a in Keep(atlases, name)
    ensures !Contains(Keep(atlases, name), name)
    ensures |Keep(atlases, name)| == |atlases| <==> !Contains(atlases, name)
    ensures !Contains(atlases, name) ==> Keep(atlases, name) == atlases
    decreases |atlases|
  {
    if atlases != [] {
      var rest := Keep(atlases[1..], name);
      KeepSpec(atlases[1..], name);
      assert Contains(atlases, name) <==> atlases[0].name == name || Contains(atlases[1..], name) by {
        if Contains(atlases, name) {
          var i :| 0 <= i < |atlases| && atlases[i].name == name;
          assert i > 0 ==> atlases[1..][i - 1].name == name;
        }
        if Contains(atlases[1..], name) {
          var i :| 0 <= i < |atlases| - 1 && atlases[1..][i].name == name;
          assert atlases[i + 1].name == name;
        }
      }
      assert atlases == [atlases[0]] + atlases[1..];
    }
  }

  /** Putting atlas `x` in front of `t` adds it to what `Keep` keeps, what
      `RemovedNames` removes and what `Contains` finds, according to its name. */
  lemma PrependAtlas(x: Atlas, t: seq<Atlas>, name: string)
    ensures Keep([x] + t, name) == (if x.name == name then [] else [x]) + Keep(t, name)
    ensures RemovedNames([x] + t, name)
         == (if x.name == name then NameSet(x.ElementNames()) else {}) + RemovedNames(t, name)
    ensures Contains([x] + t, name) == (x.name == name || Contains(t, name))
  {
    assert ([x] + t)[1..] == t;
    if Contains(t, name) {
      var i :| 0 <= i < |t| && t[i].name == name;
      assert ([x] + t)[i + 1].name == name;
    }
    if Contains([x] + t, name) && x.name != name {
      var i :| 0 <= i < |[x] + t| && ([x] + t)[i].name == name;
      assert t[i - 1].name == name;
    }
  }

  /** The names of the elements of every atlas in `atlases` called `name`. */
  function RemovedNames(atlases: seq<Atlas>, name: string): set<string>
    decreases |atlases|
  {
    if atlases == [] then {}
    else
      (if atlases[0].name == name then NameSet(atlases[0].ElementNames()) else {})
      + RemovedNames(atlases[1..], name)
  }

  /** What `RemovedNames` removes: exactly the names of the elements of
      the atlases called `name`, and nothing when there is none. */
  lemma {:induction false} RemovedNamesSpec(atlases: seq<Atlas>, name: string)
    ensures forall n :: n in RemovedNames(atlases, name) <==>
      exists i, j :: 0 <= i < |atlases| && atlases[i].name == name
                  && 0 <= j < |atlases[i].elements| && atlases[i].elements[j].name == n
    ensures !Contains(atlases, name) ==> RemovedNames(atlases, name) == {}
    decreases |atlases|
  {
    if atlases != [] {
      var tail := atlases[1..];
      RemovedNamesSpec(tail, name);
      forall n | n in RemovedNames(atlases, name)
        ensures exists i, j :: 0 <= i < |atlases| && atlases[i].name == name
                            && 0 <= j < |atlases[i].elements| && atlases[i].elements[j].name == n
      {
        if atlases[0].name == name && n in NameSet(atlases[0].ElementNames()) {
          var j :| 0 <= j < |atlases[0].elements| && atlases[0].ElementNames()[j] == n;
          assert atlases[0].elements[j].name == n;
        } else {
          assert n in RemovedNames(tail, name);
          var i, j :| 0 <= i < |tail| && tail[i].name == name
                   && 0 <= j < |tail[i].elements| && tail[i].elements[j].name == n;
          assert atlases[i + 1] == tail[i];
        }
      }
      forall n, i, j | 0 <= i < |atlases| && atlases[i].name == name
                    && 0 <= j < |atlases[i].elements| && atlases[i].elements[j].name == n
        ensures n in RemovedNames(atlases, name)
      {
        if i == 0 {
          assert atlases[0].ElementNames()[j] == n;
        } else {
          assert tail[i - 1] == atlases[i];
        }
      }
    }
  }

  /** Every element name of every atlas, in load order, then descriptor order. */
  function AllElementNames(atlases: seq<Atlas>): seq<string>
    decreases |atlases|
  {
    if atlases == [] then [] else atlases[0].ElementNames() + AllElementNames(atlases[1..])
  }

  lemma {:induction false} AllElementNamesAppend(s: seq<Atlas>, t: seq<Atlas>)
    ensures AllElementNames(s + t) == AllElementNames(s) + AllElementNames(t)
    decreases |s|
  {
    if s == [] {
      assert s + t == t;
    } else {
      assert (s + t)[0] == s[0];
      assert (s + t)[1..] == s[1..] + t;
      AllElementNamesAppend(s[1..], t);
    }
  }

  /** Each element name of each atlas in the list is among its element names. */
  lemma {:induction false} ElementListed(atlases: seq<Atlas>, a: Atlas, e: Element)
    requires a in atlases && e in a.elements
    ensures e.name in NameSet(AllElementNames(atlases))
    decreases |atlases|
  {
    if atlases[0] == a {
      var i :| 0 <= i < |a.elements| && a.elements[i] == e;
      assert a.ElementNames()[i] == e.name;
    } else {
      ElementListed(atlases[1..], a, e);
    }
  }

  lemma {:induction false} RemovedNamesListed(atlases: seq<Atlas>, name: string)
    ensures RemovedNames(atlases, name) <= NameSet(AllElementNames(atlases))
    decreases |atlases|
  {
    if atlases != [] {
      RemovedNamesListed(atlases[1..], name);
    }
  }

  /** Keeping the atlases not called `name` keeps their indices increasing:
      an unload never reorders the survivors. */
  lemma {:induction false} KeepIncreasing(atlases: seq<Atlas>, name: string)
    requires Increasing(atlases)
    ensures Increasing(Keep(atlases, name))
    decreases |atlases|
  {
    if atlases != [] {
      var tail := atlases[1..];
      assert Increasing(tail) by {
        forall i, j | 0 <= i < j < |tail|
          ensures tail[i].index < tail[j].index
        {
          assert tail[i] == atlases[i + 1] && tail[j] == atlases[j + 1];
        }
      }
      KeepIncreasing(tail, name);
      var rest := Keep(tail, name);
      KeepSpec(tail, name);
      if atlases[0].name != name {
        forall a | a in rest
          ensures atlases[0].index < a.index
        {
          assert a in tail;
          var j :| 0 <= j < |tail| && tail[j] == a;
          assert atlases[j + 1] == a;
        }
        PrependIncreasing(atlases[0], rest);
      }
    }
  }

  /** Appending an atlas whose index exceeds every index in the list keeps
      the indices increasing. */
  lemma AppendIncreasing(atlases: seq<Atlas>, a: Atlas)
    requires Increasing(atlases)
    requires forall b :: b in atlases ==> b.index < a.index
    ensures Increasing(atlases + [a])
  {
    var r := atlases + [a];
    forall i, j | 0 <= i < j < |r|
      ensures r[i].index < r[j].index
    {
      assert r[i] == atlases[i];
      if j < |atlases| {
        assert r[j] == atlases[j];
      }
    }
  }

  lemma PrependIncreasing(a: Atlas, rest: seq<Atlas>)
    requires Increasing(rest)
    requires forall b :: b in rest ==> a.index < b.index
    ensures Increasing([a] + rest)
  {
    var r := [a] + rest;
    forall i, j | 0 <= i < j < |r|
      ensures r[i].index < r[j].index
    {
      assert r[j] == rest[j - 1];
      if i > 0 {
        assert r[i] == rest[i - 1];
      }
    }
  }

  /** When no element name is listed twice, the element names of the kept
      atlases are still listed once each, and they are exactly the names
      listed before minus those of the removed atlases. */
  lemma {:induction false} KeepElementNames(atlases: seq<Atlas>, name: string)
    requires Distinct(AllElementNames(atlases))
    ensures Distinct(AllElementNames(Keep(atlases, name)))
    ensures NameSet(AllElementNames(Keep(atlases, name)))
         == NameSet(AllElementNames(atlases)) - RemovedNames(atlases, name)
    decreases |atlases|
  {
    if atlases != [] {
      var head := atlases[0].ElementNames();
      var tail := AllElementNames(atlases[1..]);
      DistinctAppend(head, tail);
      assert NameSet(head + tail) == NameSet(head) + NameSet(tail);
      KeepElementNames(atlases[1..], name);
      RemovedNamesListed(atlases[1..], name);
      var rest := AllElementNames(Keep(atlases[1..], name));
      if atlases[0].name != name {
        assert Keep(atlases, name) == [atlases[0]] + Keep(atlases[1..], name);
        assert AllElementNames(Keep(atlases, name)) == head + rest;
        assert NameSet(head + rest) == NameSet(head) + NameSet(rest);
        DistinctAppend(head, rest);
      }
    }
  }

  // ---------------------------------------------------------------------
  // The element map as a mirror of the atlas list
  // ---------------------------------------------------------------------

  /** Every element of `a` is filed in `m` under its own name. */
  predicate Filed(a: Atlas, m: map<string, Element>)
  {
    forall e :: e in a.elements ==> e.name in m && m[e.name] == e
  }

  /** `m` mirrors `atlases` exactly: no element name is listed twice across
      them, the keys of `m` are their element names, and every element of
      every atlas is filed under its name. */
  predicate Mirrors(atlases: seq<Atlas>, m: map<string, Element>)
  {
    && Distinct(AllElementNames(atlases))
    && m.Keys == NameSet(AllElementNames(atlases))
    && forall a :: a in atlases ==> Filed(a, m)
  }

  /** Inserting all elements of a new atlas without a clash and appending
      the atlas keeps the mirror. */
  lemma AddKeepsMirror(s: seq<Atlas>, m0: map<string, Element>, atlas: Atlas)
    requires Mirrors(s, m0)
    requires FirstClash(m0.Keys, atlas.ElementNames()) == |atlas.elements|
    ensures Mirrors(s + [atlas], InsertAll(m0, atlas.elements))
  {
    var names := atlas.ElementNames();
    var r := InsertAll(m0, atlas.elements);
    FirstClashSpec(m0.Keys, names);
    assert names[..|names|] == names;
    AllElementNamesAppend(s, [atlas]);
    assert AllElementNames([atlas]) == names + AllElementNames([]);
    assert AllElementNames(s + [atlas]) == AllElementNames(s) + names;
    assert NameSet(AllElementNames(s)) !! NameSet(names) by {
      forall n | n in NameSet(names)
        ensures n !in m0.Keys
      {
        var i :| 0 <= i < |names| && names[i] == n;
      }
    }
    DistinctAppend(AllElementNames(s), names);
    InsertAllKeys(m0, atlas.elements);
    InsertAllFresh(m0, atlas.elements);
    assert NameSet(AllElementNames(s) + names) == NameSet(AllElementNames(s)) + NameSet(names);
    forall a | a in s + [atlas]
      ensures Filed(a, r)
    {
      forall e | e in a.elements
        ensures e.name in r && r[e.name] == e
      {
        if a == atlas {
          var i :| 0 <= i < |atlas.elements| && atlas.elements[i] == e;
        } else {
          assert Filed(a, m0);
        }
      }
    }
  }

  /** Dropping the atlases called `name` and the names of their elements
      keeps the mirror. */
  lemma UnloadKeepsMirror(s: seq<Atlas>, m0: map<string, Element>, name: string)
    requires Mirrors(s, m0)
    ensures Mirrors(Keep(s, name), m0 - RemovedNames(s, name))
  {
    var kept := Keep(s, name);
    var m := m0 - RemovedNames(s, name);
    KeepElementNames(s, name);
    KeepSpec(s, name);
    forall a | a in kept
      ensures Filed(a, m)
    {
      assert Filed(a, m0);
      forall e | e in a.elements
        ensures e.name in m && m[e.name] == e
      {
        ElementListed(kept, a, e);
      }
    }
  }

  // ---------------------------------------------------------------------
  // What a failed load leaves behind
  // ---------------------------------------------------------------------

  /** A load that got past its first element before failing leaves that
      element's name in the map, so loading the same element names again,
      under any atlas name, fails at the very first element. */
  lemma RetryFailsAtFirst(m0: map<string, Element>, es: seq<Element>)
    requires 0 < FirstClash(m0.Keys, NamesOf(es))
    ensures FirstClash(InsertAll(m0, es[..FirstClash(m0.Keys, NamesOf(es))]).Keys, NamesOf(es)) == 0
  {
    var k := FirstClash(m0.Keys, NamesOf(es));
    InsertAllKeys(m0, es[..k]);
    assert NamesOf(es[..k])[0] == es[0].name;
  }

  /** The same partial insertion breaks the mirror: the first element's
      name is now a key, but no stored atlas lists it. */
  lemma FailedLoadBreaksMirror(s: seq<Atlas>, m0: map<string, Element>, es: seq<Element>)
    requires Mirrors(s, m0)
    requires 0 < FirstClash(m0.Keys, NamesOf(es))
    ensures !Mirrors(s, InsertAll(m0, es[..FirstClash(m0.Keys, NamesOf(es))]))
  {
    var k := FirstClash(m0.Keys, NamesOf(es));
    FirstClashSpec(m0.Keys, NamesOf(es));
    InsertAllKeys(m0, es[..k]);
    assert NamesOf(es[..k])[0] == es[0].name;
    assert es[0].name !in m0.Keys;
  }
}
