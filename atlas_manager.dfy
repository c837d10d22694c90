/** The atlas manager: the loaded atlases in load order, one global map
    from element name to element, the registered fonts, and the shared
    atlas index counter. Every operation is a sequential update of this
    state; failures are returned as values and leave behind exactly the
    state the source leaves when it throws. */
module AtlasManagers {
  import opened Atlases
  import opened Registry

  class AtlasManager {
    /** The process-wide counter of atlas indices. */
    const counter: AtlasIndexCounter
    /** Loaded atlases, in load order. */
    var atlases: seq<Atlas>
    /** Every known element, by its name. */
    var elementsByName: map<string, Element>
    /** Registered fonts, in registration order, and by name. */
    var fonts: seq<Font>
    var fontsByName: map<string, Font>

    /** How often an unload cleared the renderer's per-atlas state, asked
        the host to reclaim unused assets, and released one atlas. */
    ghost var rendererClears: nat
    ghost var assetReclaims: nat
    ghost var atlasReleases: nat

    /** Each element is filed under its own name. */
    ghost predicate ElementsKeyed()
      reads this
    {
      forall n :: n in elementsByName ==> elementsByName[n].name == n
    }

    /** `e` carries the atlas that lists it and that atlas's index. */
    static ghost predicate Stamped(e: Element)
      reads e
    {
      e.atlas != null && e.atlasIndex == e.atlas.index && e in e.atlas.elements
    }

    /** Every element in `m` is stamped. */
    static ghost predicate AllStamped(m: map<string, Element>)
      reads m.Values
    {
      forall n :: n in m ==> Stamped(m[n])
    }

    /** Every element of every atlas in `atlases` is filed in `m` under its
        own name and stamped with that atlas. */
    static ghost predicate AllFiled(atlases: seq<Atlas>, m: map<string, Element>)
      reads m.Values
    {
      forall i, j :: 0 <= i < |atlases| && 0 <= j < |atlases[i].elements| ==>
        var e := atlases[i].elements[j];
        e.name in m && m[e.name] == e && e.atlas == atlases[i]
    }

    /** Indices strictly increase in load order and are all below the next
        index the counter will hand out. */
    ghost predicate IndicesOrdered()
      reads this, counter
    {
      Increasing(atlases) && forall i :: 0 <= i < |atlases| ==> atlases[i].index < counter.next
    }

    /** Each font is filed under its own name. */
    ghost predicate FontsKeyed()
      reads this
    {
      forall n :: n in fontsByName ==> fontsByName[n].name == n
    }

    /** What every operation keeps, even one that fails halfway: each known
        element is filed under its own name and stamped with an atlas that
        lists it, and each element of each loaded atlas is still filed and
        stamped with that atlas. */
    ghost predicate Valid()
      reads this, counter, elementsByName.Values
    {
      && ElementsKeyed() && AllStamped(elementsByName) && AllFiled(atlases, elementsByName)
      && IndicesOrdered() && FontsKeyed()
    }

    /** The element map mirrors the loaded atlases exactly: no element name
        is listed twice across them, the map's names are theirs, and each
        name leads to that atlas's element. A failed load breaks this,
        since it leaves elements in the map whose atlas was never stored. */
    ghost predicate Consistent()
      reads this
    {
      Mirrors(atlases, elementsByName)
    }

    constructor (counter: AtlasIndexCounter)
      ensures Valid() && Consistent()
      ensures this.counter == counter
      ensures atlases == [] && elementsByName == map[] && fonts == [] && fontsByName == map[]
      ensures rendererClears == 0 && assetReclaims == 0 && atlasReleases == 0
    {
      this.counter := counter;
      atlases := [];
      elementsByName := map[];
      fonts := [];
      fontsByName := map[];
      rendererClears, assetReclaims, atlasReleases := 0, 0, 0;
    }

    /** Whether an atlas called `name` is loaded. */
    method DoesContainAtlas(name: string) returns (found: bool)
      ensures found == Contains(atlases, name)
    {
      var atlasCount := |atlases|;
      for a := 0 to atlasCount
        invariant forall j :: 0 <= j < a ==> atlases[j].name != name
      {
        if atlases[a].name == name {
          return true;
        }
      }
      return false;
    }

    // -------------------------------------------------------------------
    // Loading
    // -------------------------------------------------------------------

    /** The state `AddAtlas(atlas)` leaves, from atlas list `oldAtlases` and
        element map `oldMap`, with outcome `r`. With k the position of the
        first element whose name is already known: elements 0..k-1 are in
        the map, elements 0..k are stamped, and the atlas is stored only
        when there is no such k. */
    ghost predicate AddEffect(oldAtlases: seq<Atlas>, oldMap: map<string, Element>, atlas: Atlas, r: Outcome)
      reads this
    {
      var names := atlas.ElementNames();
      var k := FirstClash(oldMap.Keys, names);
      && elementsByName == InsertAll(oldMap, atlas.elements[..k])
      && atlases == (if k == |names| then oldAtlases + [atlas] else oldAtlases)
      && r == (if k == |names| then Pass else Fail(DuplicateElementName(names[k])))
    }

    /** The state a load of `name` with element names `names` leaves, with
        outcome `r`; `loaded` is the atlas it created, if any. A name that
        is already loaded changes nothing; otherwise one index is taken
        from the counter and the new atlas is added. */
    ghost predicate LoadEffect(oldAtlases: seq<Atlas>, oldMap: map<string, Element>, oldNext: nat,
                               name: string, names: seq<string>, r: Outcome, loaded: Atlas?)
      reads this, counter, if loaded == null then {} else set e | e in loaded.elements
    {
      if Contains(oldAtlases, name) then
        && r == Pass && loaded == null
        && atlases == oldAtlases && elementsByName == oldMap && counter.next == oldNext
      else
        && loaded != null
        && loaded.name == name && loaded.index == oldNext && loaded.ElementNames() == names
        && counter.next == oldNext + 1
        && AddEffect(oldAtlases, oldMap, loaded, r)
        && StampedUpTo(loaded, FirstClash(oldMap.Keys, names))
    }

    /** The stamps a load leaves on the elements of its new atlas: those up
        to and including the first clash `k` carry the atlas and its index;
        the rest are never reached and stay unstamped. */
    static ghost predicate StampedUpTo(atlas: Atlas, k: nat)
      reads set e | e in atlas.elements
    {
      forall i :: 0 <= i < |atlas.elements| ==>
        if i <= k then atlas.elements[i].atlas == atlas && atlas.elements[i].atlasIndex == atlas.index
        else atlas.elements[i].atlas == null && atlas.elements[i].atlasIndex == 0
    }

    /** Stamps each element of `atlas` and files it under its name, failing
        at the first name already known; stores the atlas when all are new. */
    method AddAtlas(atlas: Atlas) returns (r: Outcome)
      requires Valid()
      requires forall a :: a in atlases ==> a.index < atlas.index
      requires atlas.index < counter.next
      requires forall n :: n in elementsByName ==> elementsByName[n] !in atlas.elements
      modifies this, set e | e in atlas.elements
      ensures Valid()
      ensures AddEffect(old(atlases), old(elementsByName), atlas, r)
      ensures forall i :: 0 <= i < |atlas.elements| && i <= FirstClash(old(elementsByName).Keys, atlas.ElementNames()) ==>
        atlas.elements[i].atlas == atlas && atlas.elements[i].atlasIndex == atlas.index
      ensures atlas.DistinctElements() ==>
        forall i :: FirstClash(old(elementsByName).Keys, atlas.ElementNames()) < i < |atlas.elements| ==>
        atlas.elements[i].atlas == old(atlas.elements[i].atlas) && atlas.elements[i].atlasIndex == old(atlas.elements[i].atlasIndex)
      ensures old(Consistent()) && r == Pass ==> Consistent()
      ensures fonts == old(fonts) && fontsByName == old(fontsByName)
      ensures rendererClears == old(rendererClears) && assetReclaims == old(assetReclaims)
      ensures atlasReleases == old(atlasReleases)
    {
      ghost var m0 := elementsByName;
      var filed := FileElements(atlas);
      FilingKeepsFiled(atlases, elementsByName, m0, atlas, filed);
      if filed < |atlas.elements| {
        return Fail(DuplicateElementName(atlas.elements[filed].name));
      }
      assert atlas.elements[..filed] == atlas.elements;
      AppendIncreasing(atlases, atlas);
      forall i | 0 <= i < |atlases + [atlas]|
        ensures (atlases + [atlas])[i].index < counter.next
      {
        if i < |atlases| {
          assert (atlases + [atlas])[i] == atlases[i];
        }
      }
      atlases := atlases + [atlas];
      r := Pass;
      if old(Consistent()) {
        AddKeepsMirror(old(atlases), m0, atlas);
      }
    }

    /** The loop of `AddAtlas`: stamps the elements of `atlas` in order and
        files each under its name, stopping at the first name already
        known. Returns how many elements were filed, which is the position
        of that first clash, or the element count when there is none. */
    method FileElements(atlas: Atlas) returns (filed: nat)
      modifies this, set e | e in atlas.elements
      ensures filed == FirstClash(old(elementsByName).Keys, atlas.ElementNames())
      ensures elementsByName == InsertAll(old(elementsByName), atlas.elements[..filed])
      ensures forall i :: 0 <= i < |atlas.elements| && i <= filed ==>
        atlas.elements[i].atlas == atlas && atlas.elements[i].atlasIndex == atlas.index
      ensures atlas.DistinctElements() ==> forall i :: filed < i < |atlas.elements| ==>
        atlas.elements[i].atlas == old(atlas.elements[i].atlas) && atlas.elements[i].atlasIndex == old(atlas.elements[i].atlasIndex)
      ensures atlases == old(atlases) && fonts == old(fonts) && fontsByName == old(fontsByName)
      ensures rendererClears == old(rendererClears) && assetReclaims == old(assetReclaims)
      ensures atlasReleases == old(atlasReleases)
    {
      ghost var k := FirstClash(elementsByName.Keys, atlas.ElementNames());
      ghost var m0 := elementsByName;
      var elementCount := |atlas.elements|;
      for e := 0 to elementCount
        invariant e <= k
        invariant elementsByName == InsertAll(m0, atlas.elements[..e])
        invariant forall i :: 0 <= i < e ==>
          atlas.elements[i].atlas == atlas && atlas.elements[i].atlasIndex == atlas.index
        invariant atlas.DistinctElements() ==> forall i :: e <= i < |atlas.elements| ==>
          atlas.elements[i].atlas == old(atlas.elements[i].atlas) && atlas.elements[i].atlasIndex == old(atlas.elements[i].atlasIndex)
        invariant atlases == old(atlases) && fonts == old(fonts) && fontsByName == old(fontsByName)
        invariant rendererClears == old(rendererClears) && assetReclaims == old(assetReclaims)
        invariant atlasReleases == old(atlasReleases)
      {
        var element := atlas.elements[e];
        element.atlas := atlas;
        element.atlasIndex := atlas.index;
        ClashTest(m0, atlas.elements, e);
        if element.name in elementsByName {
          return e;
        }
        InsertAllStep(m0, atlas.elements, e);
        elementsByName := elementsByName[element.name := element];
      }
      assert atlas.elements[..elementCount] == atlas.elements;
      return elementCount;
    }

    /** After the first `e` elements of `atlas` went into map `m0`, giving
        `m`, and were stamped, every element in `m` is filed under its own
        name and stamped. */
    static lemma FiledAfterInsert(m: map<string, Element>, m0: map<string, Element>, atlas: Atlas, e: nat)
      requires e <= |atlas.elements|
      requires m == InsertAll(m0, atlas.elements[..e])
      requires forall i :: 0 <= i < e ==>
        atlas.elements[i].atlas == atlas && atlas.elements[i].atlasIndex == atlas.index
      requires forall n :: n in m0 ==> m0[n].name == n
      requires AllStamped(m0)
      ensures forall n :: n in m ==> m[n].name == n
      ensures AllStamped(m)
    {
      InsertAllKeys(m0, atlas.elements[..e]);
      forall n | n in m
        ensures m[n].name == n && Stamped(m[n])
      {
        if m[n] in atlas.elements[..e] {
          var i :| 0 <= i < e && atlas.elements[..e][i] == m[n];
          assert atlas.elements[i] == m[n];
        }
      }
    }

    /** Filing the elements of `atlas` up to the first clash into `m0`,
        giving `m`, keeps every known element filed and stamped and every
        loaded atlas in `s` filed; without a clash, `atlas` is filed too. */
    static lemma FilingKeepsFiled(s: seq<Atlas>, m: map<string, Element>, m0: map<string, Element>,
                                  atlas: Atlas, filed: nat)
      requires filed == FirstClash(m0.Keys, atlas.ElementNames())
      requires m == InsertAll(m0, atlas.elements[..filed])
      requires forall i :: 0 <= i < |atlas.elements| && i <= filed ==>
        atlas.elements[i].atlas == atlas && atlas.elements[i].atlasIndex == atlas.index
      requires forall n :: n in m0 ==> m0[n].name == n
      requires AllStamped(m0) && AllFiled(s, m0)
      ensures forall n :: n in m ==> m[n].name == n
      ensures AllStamped(m) && AllFiled(s, m)
      ensures filed == |atlas.elements| ==> AllFiled(s + [atlas], m)
    {
      FiledAfterInsert(m, m0, atlas, filed);
      InsertUpToClashFiles(m0, atlas.elements);
      FiledKept(s, m0, m);
      if filed == |atlas.elements| {
        assert atlas.elements[..filed] == atlas.elements;
        FiledAppend(s, m, atlas);
      }
    }

    /** Entries that survive into `m` keep every loaded atlas filed. */
    static lemma FiledKept(s: seq<Atlas>, m0: map<string, Element>, m: map<string, Element>)
      requires AllFiled(s, m0)
      requires forall n :: n in m0 ==> n in m && m[n] == m0[n]
      ensures AllFiled(s, m)
    {
    }

    /** An atlas whose elements are all filed in `m` and stamped with it
        can join the loaded atlases. */
    static lemma FiledAppend(s: seq<Atlas>, m: map<string, Element>, atlas: Atlas)
      requires AllFiled(s, m)
      requires forall i :: 0 <= i < |atlas.elements| ==>
        atlas.elements[i].name in m && m[atlas.elements[i].name] == atlas.elements[i]
        && atlas.elements[i].atlas == atlas
      ensures AllFiled(s + [atlas], m)
    {
      forall i | 0 <= i < |s|
        ensures (s + [atlas])[i] == s[i]
      {
      }
    }

    /** Loads a single-element atlas called `name` from an already decoded
        texture, unless an atlas of that name is loaded. */
    method LoadAtlasFromTexture(name: string) returns (r: Outcome, ghost loaded: Atlas?)
      requires Valid()
      modifies this, counter
      ensures Valid()
      ensures LoadEffect(old(atlases), old(elementsByName), old(counter.next), name, [name], r, loaded)
      ensures loaded != null ==> fresh(loaded)
      ensures old(Consistent()) && r == Pass ==> Consistent()
      ensures fonts == old(fonts) && fontsByName == old(fontsByName)
      ensures rendererClears == old(rendererClears) && assetReclaims == old(assetReclaims)
      ensures atlasReleases == old(atlasReleases)
    {
      var found := DoesContainAtlas(name);
      if found {
        return Pass, null;
      }
      var index := counter.next;
      counter.next := counter.next + 1;
      var atlas := new Atlas(name, index, [name]);
      assert forall e :: e in atlas.elements ==> fresh(e);
      r := AddAtlas(atlas);
      loaded := atlas;
    }

    /** Loads an atlas called `name` from an already decoded texture; the
        descriptor at the data path lists the element names `descriptor`. */
    method LoadAtlasFromTextureWithData(name: string, descriptor: seq<string>) returns (r: Outcome, ghost loaded: Atlas?)
      requires Valid()
      modifies this, counter
      ensures Valid()
      ensures LoadEffect(old(atlases), old(elementsByName), old(counter.next), name, descriptor, r, loaded)
      ensures loaded != null ==> fresh(loaded)
      ensures old(Consistent()) && r == Pass ==> Consistent()
      ensures fonts == old(fonts) && fontsByName == old(fontsByName)
      ensures rendererClears == old(rendererClears) && assetReclaims == old(assetReclaims)
      ensures atlasReleases == old(atlasReleases)
    {
      var found := DoesContainAtlas(name);
      if found {
        return Pass, null;
      }
      var index := counter.next;
      counter.next := counter.next + 1;
      var atlas := new Atlas(name, index, descriptor);
      assert forall e :: e in atlas.elements ==> fresh(e);
      r := AddAtlas(atlas);
      loaded := atlas;
    }

    /** Loads an atlas or, when `dataPath` is empty, a single image called
        `name`; the descriptor at `dataPath` lists the element names
        `descriptor`. A single image has one element named after it. */
    method ActuallyLoadAtlasOrImage(name: string, dataPath: string, descriptor: seq<string>)
      returns (r: Outcome, ghost loaded: Atlas?)
      requires Valid()
      modifies this, counter
      ensures Valid()
      ensures LoadEffect(old(atlases), old(elementsByName), old(counter.next), name,
                         if dataPath == "" then [name] else descriptor, r, loaded)
      ensures loaded != null ==> fresh(loaded)
      ensures old(Consistent()) && r == Pass ==> Consistent()
      ensures fonts == old(fonts) && fontsByName == old(fontsByName)
      ensures rendererClears == old(rendererClears) && assetReclaims == old(assetReclaims)
      ensures atlasReleases == old(atlasReleases)
    {
      var found := DoesContainAtlas(name);
      if found {
        return Pass, null;
      }
      var isSingleImage := dataPath == "";
      var index := counter.next;
      counter.next := counter.next + 1;
      var atlas := new Atlas(name, index, if isSingleImage then [name] else descriptor);
      assert forall e :: e in atlas.elements ==> fresh(e);
      r := AddAtlas(atlas);
      loaded := atlas;
    }

    /** Loads the atlas at `atlasPath`: image and descriptor both at the path
        plus the host's resource suffix `suffix`. */
    method LoadAtlas(atlasPath: string, suffix: string, descriptor: seq<string>)
      returns (r: Outcome, ghost loaded: Atlas?)
      requires Valid()
      modifies this, counter
      ensures Valid()
      ensures LoadEffect(old(atlases), old(elementsByName), old(counter.next), atlasPath,
                         if atlasPath + suffix == "" then [atlasPath] else descriptor, r, loaded)
      ensures loaded != null ==> fresh(loaded)
      ensures old(Consistent()) && r == Pass ==> Consistent()
      ensures fonts == old(fonts) && fontsByName == old(fontsByName)
      ensures rendererClears == old(rendererClears) && assetReclaims == old(assetReclaims)
      ensures atlasReleases == old(atlasReleases)
    {
      r, loaded := ActuallyLoadAtlasOrImage(atlasPath, atlasPath + suffix, descriptor);
    }

    /** Loads the image at `imagePath` as a single-element atlas. */
    method LoadImage(imagePath: string) returns (r: Outcome, ghost loaded: Atlas?)
      requires Valid()
      modifies this, counter
      ensures Valid()
      ensures LoadEffect(old(atlases), old(elementsByName), old(counter.next), imagePath, [imagePath], r, loaded)
      ensures loaded != null ==> fresh(loaded)
      ensures old(Consistent()) && r == Pass ==> Consistent()
      ensures fonts == old(fonts) && fontsByName == old(fontsByName)
      ensures rendererClears == old(rendererClears) && assetReclaims == old(assetReclaims)
      ensures atlasReleases == old(atlasReleases)
    {
      r, loaded := ActuallyLoadAtlasOrImage(imagePath, "", []);
    }

    // -------------------------------------------------------------------
    // Unloading
    // -------------------------------------------------------------------

    /** Removes every atlas called `name` and the names of its elements,
        scanning from the last atlas to the first; when anything was
        removed, clears the renderer and reclaims assets once. */
    method ActuallyUnloadAtlasOrImage(name: string)
      requires Valid()
      modifies this
      ensures Valid()
      ensures atlases == Keep(old(atlases), name)
      ensures elementsByName == old(elementsByName) - RemovedNames(old(atlases), name)
      ensures atlasReleases == old(atlasReleases) + (|old(atlases)| - |atlases|)
      ensures rendererClears == old(rendererClears) + (if Contains(old(atlases), name) then 1 else 0)
      ensures assetReclaims == old(assetReclaims) + (if Contains(old(atlases), name) then 1 else 0)
      ensures !Contains(old(atlases), name) ==>
        atlases == old(atlases) && elementsByName == old(elementsByName) && atlasReleases == old(atlasReleases)
      ensures fonts == old(fonts) && fontsByName == old(fontsByName)
      ensures old(Consistent()) ==> Consistent()
    {
      ghost var s := atlases;
      ghost var m0 := elementsByName;
      var wasAtlasRemoved := RemoveAtlasesNamed(name);
      if wasAtlasRemoved {
        rendererClears := rendererClears + 1;
        assetReclaims := assetReclaims + 1;
      }
      UnloadKeepsValid(s, m0, name);
      if !Contains(s, name) {
        UnloadAbsent(s, m0, name);
      }
      if old(Consistent()) {
        UnloadKeepsMirror(s, m0, name);
      }
    }

    /** The scan of `ActuallyUnloadAtlasOrImage`: from the last atlas to the
        first, releases each atlas called `name`, drops it from the list and
        forgets the names of its elements. Reports whether any was found. */
    method RemoveAtlasesNamed(name: string) returns (wasAtlasRemoved: bool)
      modifies this
      ensures atlases == Keep(old(atlases), name)
      ensures elementsByName == old(elementsByName) - RemovedNames(old(atlases), name)
      ensures wasAtlasRemoved == Contains(old(atlases), name)
      ensures atlasReleases == old(atlasReleases) + (|old(atlases)| - |atlases|)
      ensures rendererClears == old(rendererClears) && assetReclaims == old(assetReclaims)
      ensures fonts == old(fonts) && fontsByName == old(fontsByName)
    {
      ghost var s := atlases;
      ghost var m0 := elementsByName;
      ghost var scanned: seq<Atlas> := [];
      wasAtlasRemoved := false;
      var atlasCount := |atlases|;
      var a := atlasCount - 1;
      while a >= 0
        invariant -1 <= a < atlasCount
        invariant s[..a + 1] + scanned == s
        invariant atlases == s[..a + 1] + Keep(scanned, name)
        invariant elementsByName == m0 - RemovedNames(scanned, name)
        invariant wasAtlasRemoved == Contains(scanned, name)
        invariant atlasReleases + |atlases| == old(atlasReleases) + |s|
        invariant rendererClears == old(rendererClears) && assetReclaims == old(assetReclaims)
        invariant fonts == old(fonts) && fontsByName == old(fontsByName)
      {
        ScanStep(s, scanned, atlases, a, name);
        PrependAtlas(s[a], scanned, name);
        var atlas := atlases[a];
        if atlas.name == name {
          assert m0 - RemovedNames([s[a]] + scanned, name)
              == (m0 - RemovedNames(scanned, name)) - NameSet(atlas.ElementNames());
          elementsByName := WithoutElements(elementsByName, atlas);
          atlasReleases := atlasReleases + 1;
          atlases := atlases[..a] + atlases[a + 1..];
          wasAtlasRemoved := true;
        }
        scanned := [s[a]] + scanned;
        a := a - 1;
      }
      assert s[..0] == [];
      assert scanned == s;
    }

    /** The inner loop of the unload: `m` with the name of every element of
        `atlas` removed. */
    static method WithoutElements(m: map<string, Element>, atlas: Atlas) returns (r: map<string, Element>)
      ensures r == m - NameSet(atlas.ElementNames())
    {
      r := m;
      var elementCount := |atlas.elements|;
      for e := 0 to elementCount
        invariant r == m - NameSet(atlas.ElementNames()[..e])
      {
        assert NameSet(atlas.ElementNames()[..e + 1])
            == NameSet(atlas.ElementNames()[..e]) + {atlas.elements[e].name};
        r := r - {atlas.elements[e].name};
      }
      assert atlas.ElementNames()[..elementCount] == atlas.ElementNames();
    }

    /** One step of the reverse scan, at position `a` of the original list
        `s`, where `scanned` is the part after `a` and `current` what the
        scan has left so far: dropping or keeping the atlas at `a` leaves
        the list the next step expects. */
    static lemma ScanStep(s: seq<Atlas>, scanned: seq<Atlas>, current: seq<Atlas>, a: nat, name: string)
      requires a < |s|
      requires s[..a + 1] + scanned == s
      requires current == s[..a + 1] + Keep(scanned, name)
      ensures s[..a] + ([s[a]] + scanned) == s
      ensures current[a] == s[a]
      ensures s[a].name == name ==> current[..a] + current[a + 1..] == s[..a] + Keep(scanned, name)
      ensures s[a].name != name ==> current == s[..a] + ([s[a]] + Keep(scanned, name))
    {
      assert s[..a + 1] == s[..a] + [s[a]];
      assert current[a] == s[..a + 1][a];
      if s[a].name == name {
        assert current[..a] == s[..a];
        assert current[a + 1..] == Keep(scanned, name);
      }
    }

    /** Unloading a name no loaded atlas has keeps the list and the map. */
    static lemma UnloadAbsent(s: seq<Atlas>, m0: map<string, Element>, name: string)
      requires !Contains(s, name)
      ensures Keep(s, name) == s && m0 - RemovedNames(s, name) == m0
    {
      KeepSpec(s, name);
      RemovedNamesSpec(s, name);
    }

    /** After the unload, the atlas list and element map still satisfy
        Valid: the survivors keep their order and every remaining element
        is untouched. */
    lemma UnloadKeepsValid(s: seq<Atlas>, m0: map<string, Element>, name: string)
      requires Increasing(s) && forall i :: 0 <= i < |s| ==> s[i].index < counter.next
      requires forall n :: n in m0 ==> m0[n].name == n
      requires AllStamped(m0)
      requires AllFiled(s, m0)
      requires FontsKeyed()
      requires atlases == Keep(s, name)
      requires elementsByName == m0 - RemovedNames(s, name)
      ensures Valid()
    {
      KeepIncreasing(s, name);
      KeepSpec(s, name);
      forall i | 0 <= i < |atlases|
        ensures atlases[i].index < counter.next
      {
        assert atlases[i] in s;
      }
      assert forall n :: n in elementsByName ==> n in m0 && elementsByName[n] == m0[n];
      SurvivorsFiled(s, m0, name);
    }

    /** No survivor of an unload shares an element name with a removed
        atlas: that name leads to one element, stamped with one atlas. So
        removing the names of the removed atlases keeps every survivor
        filed. */
    static lemma SurvivorsFiled(s: seq<Atlas>, m0: map<string, Element>, name: string)
      requires AllFiled(s, m0)
      ensures AllFiled(Keep(s, name), m0 - RemovedNames(s, name))
    {
      KeepSpec(s, name);
      RemovedNamesSpec(s, name);
      var kept := Keep(s, name);
      forall i, j | 0 <= i < |kept| && 0 <= j < |kept[i].elements|
        ensures kept[i].elements[j].name !in RemovedNames(s, name)
      {
        assert kept[i] in s;
      }
    }

    /** Unloads the atlas loaded from `atlasPath`. */
    method UnloadAtlas(atlasPath: string)
      requires Valid()
      modifies this
      ensures Valid()
      ensures atlases == Keep(old(atlases), atlasPath)
      ensures elementsByName == old(elementsByName) - RemovedNames(old(atlases), atlasPath)
      ensures atlasReleases == old(atlasReleases) + (|old(atlases)| - |atlases|)
      ensures rendererClears == old(rendererClears) + (if Contains(old(atlases), atlasPath) then 1 else 0)
      ensures assetReclaims == old(assetReclaims) + (if Contains(old(atlases), atlasPath) then 1 else 0)
      ensures !Contains(old(atlases), atlasPath) ==>
        atlases == old(atlases) && elementsByName == old(elementsByName) && atlasReleases == old(atlasReleases)
      ensures fonts == old(fonts) && fontsByName == old(fontsByName)
      ensures old(Consistent()) ==> Consistent()
    {
      ActuallyUnloadAtlasOrImage(atlasPath);
    }

    /** Unloads the image loaded from `imagePath`. */
    method UnloadImage(imagePath: string)
      requires Valid()
      modifies this
      ensures Valid()
      ensures atlases == Keep(old(atlases), imagePath)
      ensures elementsByName == old(elementsByName) - RemovedNames(old(atlases), imagePath)
      ensures atlasReleases == old(atlasReleases) + (|old(atlases)| - |atlases|)
      ensures rendererClears == old(rendererClears) + (if Contains(old(atlases), imagePath) then 1 else 0)
      ensures assetReclaims == old(assetReclaims) + (if Contains(old(atlases), imagePath) then 1 else 0)
      ensures !Contains(old(atlases), imagePath) ==>
        atlases == old(atlases) && elementsByName == old(elementsByName) && atlasReleases == old(atlasReleases)
      ensures fonts == old(fonts) && fontsByName == old(fontsByName)
      ensures old(Consistent()) ==> Consistent()
    {
      ActuallyUnloadAtlasOrImage(imagePath);
    }

    // -------------------------------------------------------------------
    // Lookups and fonts
    // -------------------------------------------------------------------

    /** The element called `elementName`; fails when no such element is known. */
    function GetElementWithName(elementName: string): (r: Result<Element>)
      reads this, elementsByName.Values
      requires ElementsKeyed() && AllStamped(elementsByName)
      ensures r.Ok? <==> elementName in elementsByName
      ensures r.Ok? ==> r.value == elementsByName[elementName] && r.value.name == elementName
      ensures r.Ok? ==> r.value.atlas != null && r.value.atlasIndex == r.value.atlas.index
      ensures r.Err? ==> r.error == ElementNotFound(elementName)
    {
      if elementName in elementsByName then Ok(elementsByName[elementName])
      else Err(ElementNotFound(elementName))
    }

    /** The font called `fontName`; fails when no such font is registered. */
    function GetFontWithName(fontName: string): (r: Result<Font>)
      reads this
      requires FontsKeyed()
      ensures r.Ok? <==> fontName in fontsByName
      ensures r.Ok? ==> r.value == fontsByName[fontName] && r.value.name == fontName
      ensures r.Err? ==> r.error == FontNotFound(fontName)
    {
      if fontName !in fontsByName then Err(FontNotFound(fontName))
      else Ok(fontsByName[fontName])
    }

    /** The font state a registration of `name` on element `elementName`
        leaves, with outcome `r`; `font` is the font it created, if any. An
        unknown element fails before any font is created. Otherwise the font
        is appended to the list, and then filed under its name unless that
        name is taken, in which case the list and the map disagree. */
    ghost predicate FontEffect(oldElements: map<string, Element>, oldFonts: seq<Font>,
                               oldFontsByName: map<string, Font>, name: string, elementName: string,
                               r: Outcome, font: Font?)
      reads this
    {
      if elementName !in oldElements then
        && r == Fail(ElementNotFound(elementName)) && font == null
        && fonts == oldFonts && fontsByName == oldFontsByName
      else
        && font != null && font.name == name && font.element == oldElements[elementName]
        && fonts == oldFonts + [font]
        && if name in oldFontsByName then
             r == Fail(DuplicateFontName(name)) && fontsByName == oldFontsByName
           else
             r == Pass && fontsByName == oldFontsByName[name := font]
    }

    /** Registers a font called `name` on element `elementName` with the
        text options `textParams`. */
    method LoadFontWithParams(name: string, elementName: string, configPath: string,
                              offsetX: real, offsetY: real, textParams: TextParams)
      returns (r: Outcome, ghost font: Font?)
      requires Valid()
      modifies this
      ensures Valid()
      ensures FontEffect(old(elementsByName), old(fonts), old(fontsByName), name, elementName, r, font)
      ensures font != null ==>
        fresh(font) && font.configPath == configPath && font.offsetX == offsetX
        && font.offsetY == offsetY && font.textParams == textParams
      ensures font != null && name in old(fontsByName) ==> fontsByName[name] != font
      ensures atlases == old(atlases) && elementsByName == old(elementsByName)
      ensures rendererClears == old(rendererClears) && assetReclaims == old(assetReclaims)
      ensures atlasReleases == old(atlasReleases)
      ensures old(Consistent()) ==> Consistent()
    {
      var element := GetElementWithName(elementName);
      if element.Err? {
        return Fail(element.error), null;
      }
      var f := new Font(name, element.value, configPath, offsetX, offsetY, textParams);
      fonts := fonts + [f];
      if name in fontsByName {
        return Fail(DuplicateFontName(name)), f;
      }
      fontsByName := fontsByName[name := f];
      r, font := Pass, f;
    }

    /** Registers a font called `name` on element `elementName` with default
        text options. */
    method LoadFont(name: string, elementName: string, configPath: string, offsetX: real, offsetY: real)
      returns (r: Outcome, ghost font: Font?)
      requires Valid()
      modifies this
      ensures Valid()
      ensures FontEffect(old(elementsByName), old(fonts), old(fontsByName), name, elementName, r, font)
      ensures font != null ==>
        fresh(font) && fresh(font.textParams) && font.configPath == configPath
        && font.offsetX == offsetX && font.offsetY == offsetY
      ensures font != null && name in old(fontsByName) ==> fontsByName[name] != font
      ensures atlases == old(atlases) && elementsByName == old(elementsByName)
      ensures rendererClears == old(rendererClears) && assetReclaims == old(assetReclaims)
      ensures atlasReleases == old(atlasReleases)
      ensures old(Consistent()) ==> Consistent()
    {
      var textParams := new TextParams();
      r, font := LoadFontWithParams(name, elementName, configPath, offsetX, offsetY, textParams);
    }
  }
}
