# FAtlasManager, modelled in Dafny

This project models `FAtlasManager`, the atlas registry of the Futile 2D framework for Unity. The manager keeps:

- the loaded atlases, in load order;
- one global map from element name to element, shared by all atlases;
- the registered fonts, as a list and as a map by name;
- a process-wide counter of atlas indices.

The manager loads an atlas only when no atlas of that name is already loaded. Each load takes one index from the counter. A load stamps each element with its atlas and that atlas's index, then files the element under its name. It fails on the first element name that is already known. An unload scans the atlases from last to first and removes every atlas of the given name, together with the names of its elements. When anything was removed, it clears the renderer and asks the host to reclaim assets, once. Lookups fail on unknown names. A font is registered on an existing element.

The source reports failures by throwing `FutileException`, or an `ArgumentException` from `Dictionary.Add`. The model returns them as `Outcome` / `Result` values. Each failure leaves exactly the state the source leaves at the throw point. In particular, a load that fails at element *k* keeps elements 0..k-1 in the map, has stamped elements 0..k, does not store the atlas, and has still consumed its index.

Files:

- `atlas.dfy`, module `Atlases`: the entities.
  - `Element` has mutable `atlas` and `atlasIndex` fields.
  - `Atlas`, `Font` and `TextParams` are classes with constant fields.
  - `AtlasIndexCounter` is the shared counter.
  - The error and outcome datatypes live here too.
- `registry.dfy`, module `Registry`: value-level specification functions and the lemmas about them. They cover:
  - `FirstClash`: the position of the first duplicate met while inserting names one by one;
  - `InsertAll`: the map after an insertion run;
  - `Keep` and `RemovedNames`: what an unload keeps and removes;
  - `Mirrors`: when the element map exactly mirrors the atlas list.
- `atlas_manager.dfy`, module `AtlasManagers`: the class `AtlasManager`.
  - Its methods follow the source's control flow: counted loops, the reverse unload loop, early exits at the throw points.
  - Each method is proved against the functions in `Registry`.
  - Two invariants are kept. `Valid()` holds after every operation, including failed ones. It says:
    - every known element is filed under its own name and stamped with an atlas that lists it;
    - every element of every stored atlas is filed under its name and stamped with that very atlas, so a failed load never disturbs the atlases already stored;
    - atlas indices increase in load order and stay below the counter;
    - every font is filed under its name.
  - `Consistent()` says the element map mirrors the stored atlases exactly. Unloads, font registration and successful loads keep it. `Registry.FailedLoadBreaksMirror` shows that a load failing after its first element breaks it: the map then holds names that no stored atlas lists.

The static counter `_nextAtlasIndex` is modelled as an `AtlasIndexCounter` object that the manager holds and never replaces. Any number of managers may share it, as they share the static field. An unload does not touch it (`modifies this` only), so indices are never reused.

## Model

All source paths are in `BananaDemoProject/Assets/Plugins/Futile/Core/`.

| member | source | states |
|---|---|---|
| AtlasManagers.AtlasManager.constructor | BananaDemoProject/Assets/Plugins/Futile/Core/FAtlasManager.cs:8-20 | A new manager holds no atlases, elements or fonts, uses the given shared counter, and satisfies both invariants |
| AtlasManagers.AtlasManager.DoesContainAtlas | BananaDemoProject/Assets/Plugins/Futile/Core/FAtlasManager.cs:22-30 | Returns true exactly when some loaded atlas has the name; changes no state |
| AtlasManagers.AtlasManager.LoadAtlasFromTexture | BananaDemoProject/Assets/Plugins/Futile/Core/FAtlasManager.cs:32-39 | If the name is loaded, nothing changes and the counter is not advanced. Otherwise one atlas with a single element named after it gets the counter's old value as index, the counter advances by one, and the `AddAtlas` effect follows. The new atlas's elements up to and including the first clash carry that atlas and its index; those after it stay unstamped. Valid is kept; Consistent is kept on success |
| AtlasManagers.AtlasManager.LoadAtlasFromTextureWithData | BananaDemoProject/Assets/Plugins/Futile/Core/FAtlasManager.cs:41-48 | The same, including the stamps, for an atlas whose elements are the names the descriptor lists |
| AtlasManagers.AtlasManager.ActuallyLoadAtlasOrImage | BananaDemoProject/Assets/Plugins/Futile/Core/FAtlasManager.cs:50-60 | The same, including the stamps; an empty data path loads a single image with one element named after it |
| AtlasManagers.AtlasManager.LoadAtlas | BananaDemoProject/Assets/Plugins/Futile/Core/FAtlasManager.cs:85-88 | The same effect and stamps, loading with the path plus the resource suffix as data path, so only an empty path and suffix give a single image |
| AtlasManagers.AtlasManager.LoadImage | BananaDemoProject/Assets/Plugins/Futile/Core/FAtlasManager.cs:103-106 | The same effect and stamps, always for a single image named after the path |
| AtlasManagers.AtlasManager.AddAtlas | BananaDemoProject/Assets/Plugins/Futile/Core/FAtlasManager.cs:62-83 | Let k be the first clash. The map becomes the old map plus elements 0..k-1, and elements 0..k are stamped with the atlas and its index. When the atlas lists each element object once, elements after k keep their old stamps. Without a clash the atlas is appended and the result is Pass; with one, the list is unchanged and the result is Fail(DuplicateElementName(name of element k)). Fonts and hooks are untouched; Valid is kept, and Consistent is kept on success |
| AtlasManagers.AtlasManager.FileElements | BananaDemoProject/Assets/Plugins/Futile/Core/FAtlasManager.cs:64-80 | The element loop stops exactly at the first clash, having inserted every element before it and stamped every element up to it; later elements keep their stamps |
| AtlasManagers.AtlasManager.FilingKeepsFiled | BananaDemoProject/Assets/Plugins/Futile/Core/FAtlasManager.cs:65-82 | Filing up to the first clash keeps every known element filed and stamped and every stored atlas filed and stamped; without a clash the new atlas can be stored filed too |
| AtlasManagers.AtlasManager.FiledKept | BananaDemoProject/Assets/Plugins/Futile/Core/FAtlasManager.cs:72-78 | A map that keeps every old entry keeps every stored atlas filed |
| AtlasManagers.AtlasManager.FiledAppend | BananaDemoProject/Assets/Plugins/Futile/Core/FAtlasManager.cs:82 | Storing an atlas whose elements are all filed and stamped with it keeps every stored atlas filed |
| AtlasManagers.AtlasManager.FiledAfterInsert | BananaDemoProject/Assets/Plugins/Futile/Core/FAtlasManager.cs:67-79 | After a stamped insertion run, every entry of the map is still filed under its own name and stamped with an atlas that lists it |
| Registry.FirstClashSpec | BananaDemoProject/Assets/Plugins/Futile/Core/FAtlasManager.cs:65-79 | Every name before the first clash is new and listed once; the name at it is an old key or repeats an earlier name of the same atlas |
| Registry.ClashAt | BananaDemoProject/Assets/Plugins/Futile/Core/FAtlasManager.cs:72-78 | Up to the first clash, name e is already present (old key or earlier name) exactly when e is the first clash |
| Registry.ClashTest | BananaDemoProject/Assets/Plugins/Futile/Core/FAtlasManager.cs:72 | The `ContainsKey` test on element e, in the map built so far, is true exactly at the first clash |
| Registry.InsertAllKeys | BananaDemoProject/Assets/Plugins/Futile/Core/FAtlasManager.cs:78 | The keys after an insertion run are the old keys plus the inserted names; each entry is an inserted element under its own name or an untouched old entry |
| Registry.InsertAllFresh | BananaDemoProject/Assets/Plugins/Futile/Core/FAtlasManager.cs:65-80 | Inserting distinct new names keeps every old entry and maps each name to its own element |
| Registry.InsertAllFreshSize | BananaDemoProject/Assets/Plugins/Futile/Core/FAtlasManager.cs:78 | Inserting distinct new names grows the map by exactly one entry per element |
| Registry.InsertUpToClashFiles | BananaDemoProject/Assets/Plugins/Futile/Core/FAtlasManager.cs:72-78 | Inserting up to the first clash never overwrites an entry, and files each inserted element under its own name |
| Registry.InsertUpToClashSize | BananaDemoProject/Assets/Plugins/Futile/Core/FAtlasManager.cs:65-80 | A load that stops at the first clash k grows the map by exactly k entries, so a successful load grows it by its element count |
| Registry.AppendIncreasing | BananaDemoProject/Assets/Plugins/Futile/Core/FAtlasManager.cs:82 | Appending an atlas whose index exceeds all earlier ones keeps indices strictly increasing in load order |
| Registry.AddKeepsMirror | BananaDemoProject/Assets/Plugins/Futile/Core/FAtlasManager.cs:62-83 | A clash-free load, with the atlas appended, keeps the map an exact mirror of the atlas list |
| Registry.RetryFailsAtFirst | BananaDemoProject/Assets/Plugins/Futile/Core/FAtlasManager.cs:72-78 | After a load that fails past its first element, loading the same element names again fails at element 0 |
| Registry.FailedLoadBreaksMirror | BananaDemoProject/Assets/Plugins/Futile/Core/FAtlasManager.cs:72-82 | Such a failed load leaves a name in the map that no stored atlas lists, so the mirror is broken |
| AtlasManagers.AtlasManager.ActuallyUnloadAtlasOrImage | BananaDemoProject/Assets/Plugins/Futile/Core/FAtlasManager.cs:108-139 | The list becomes Keep(old list, name) and the map loses the element names of the removed atlases. One release per removed atlas. The renderer is cleared and assets are reclaimed exactly once if an atlas of that name was loaded, and never otherwise. Unloading a name no atlas has changes neither the list, the map nor the release count. Fonts are untouched; Valid and Consistent are kept |
| AtlasManagers.AtlasManager.RemoveAtlasesNamed | BananaDemoProject/Assets/Plugins/Futile/Core/FAtlasManager.cs:110-132 | The reverse scan leaves exactly the list, map and release count above, and reports whether an atlas of that name was loaded |
| AtlasManagers.AtlasManager.WithoutElements | BananaDemoProject/Assets/Plugins/Futile/Core/FAtlasManager.cs:120-125 | The inner loop removes exactly the atlas's element names from the map |
| AtlasManagers.AtlasManager.ScanStep | BananaDemoProject/Assets/Plugins/Futile/Core/FAtlasManager.cs:114-128 | `RemoveAt(a)` during the reverse scan leaves the kept suffix and the untouched prefix the next step expects |
| Registry.KeepSpec | BananaDemoProject/Assets/Plugins/Futile/Core/FAtlasManager.cs:114-131 | The atlases left are exactly those not called the name. None called it remains. The list is unchanged exactly when none was there |
| Registry.PrependAtlas | BananaDemoProject/Assets/Plugins/Futile/Core/FAtlasManager.cs:114-131 | One more atlas seen by the scan adds to what is kept, removed and found according to its name |
| Registry.KeepIncreasing | BananaDemoProject/Assets/Plugins/Futile/Core/FAtlasManager.cs:128 | Removing atlases keeps the survivors in their relative order |
| Registry.KeepElementNames | BananaDemoProject/Assets/Plugins/Futile/Core/FAtlasManager.cs:118-128 | The kept atlases still list each element name once, and their names are the old names minus the removed ones |
| Registry.UnloadKeepsMirror | BananaDemoProject/Assets/Plugins/Futile/Core/FAtlasManager.cs:108-132 | Dropping the atlases and their element names keeps the map an exact mirror of the list |
| AtlasManagers.AtlasManager.UnloadKeepsValid | BananaDemoProject/Assets/Plugins/Futile/Core/FAtlasManager.cs:108-139 | After the unload every remaining element is still filed and stamped, and the indices still increase |
| AtlasManagers.AtlasManager.SurvivorsFiled | BananaDemoProject/Assets/Plugins/Futile/Core/FAtlasManager.cs:118-128 | No surviving atlas shares an element name with a removed one, so every survivor stays filed and stamped after the names are removed |
| AtlasManagers.AtlasManager.UnloadAbsent | BananaDemoProject/Assets/Plugins/Futile/Core/FAtlasManager.cs:114-138 | Unloading a name that no atlas has keeps the list and the map |
| Registry.RemovedNamesSpec | BananaDemoProject/Assets/Plugins/Futile/Core/FAtlasManager.cs:118-125 | The names an unload removes are exactly the element names of the atlases with that name, and none when there is no such atlas |
| AtlasManagers.AtlasManager.UnloadAtlas | BananaDemoProject/Assets/Plugins/Futile/Core/FAtlasManager.cs:142-145 | Same effect as the unload above, including the absent-name case |
| AtlasManagers.AtlasManager.UnloadImage | BananaDemoProject/Assets/Plugins/Futile/Core/FAtlasManager.cs:147-150 | Same effect as the unload above, including the absent-name case |
| AtlasManagers.AtlasManager.GetElementWithName | BananaDemoProject/Assets/Plugins/Futile/Core/FAtlasManager.cs:152-159 | Ok exactly when the name is a key. The value is the mapped element, carrying that name and stamped with its atlas's index. Otherwise ElementNotFound(name) |
| AtlasManagers.AtlasManager.GetFontWithName | BananaDemoProject/Assets/Plugins/Futile/Core/FAtlasManager.cs:161-168 | Ok exactly when the name is a key, with the mapped font carrying that name; otherwise FontNotFound(name) |
| AtlasManagers.AtlasManager.LoadFontWithParams | BananaDemoProject/Assets/Plugins/Futile/Core/FAtlasManager.cs:175-182 | An unknown element fails with ElementNotFound before any font is created or stored. Otherwise a fresh font on that element is appended to the list. It is then filed under its name, or, if the name is taken, the result is DuplicateFontName and the map keeps the old font. Atlases, elements and the counter are untouched |
| AtlasManagers.AtlasManager.LoadFont | BananaDemoProject/Assets/Plugins/Futile/Core/FAtlasManager.cs:170-173 | The same, with fresh default text options |

## Left out

- Texture and image handling are not modelled: decoding, `Resources.Load`, and the texture and image paths. The load methods take the element names the descriptor would list as a parameter.
- The `FAtlas` constructor's descriptor parsing and element rectangles are not modelled. `FAtlas` is not part of this model. An atlas is a name, an index and its ordered element names, with one fresh, unstamped element per name. A single image has one element named after the atlas.
- `LoadAtlas(string, bool)` (lines 90-101) is left out. It only decodes a raw-bytes image through Unity calls, then calls the three-argument `LoadAtlasFromTexture`, which is modelled.
- `Futile.resourceSuffix` is a host setting. `LoadAtlas` takes it as a parameter.
- Three external effects are ghost counters only: `FAtlas.Unload()` (texture release), `Futile.stage.renderer.Clear()` and `Resources.UnloadUnusedAssets()`.
- `FFont` construction and glyph-layout loading are not modelled. `FTextParams` contents are not modelled either. A font records its name, element, config path, offsets and text options.
- The float offsets are modelled as `real`.
- AtlasManagers.AtlasManager.AddAtlas: that elements after the first clash keep their stamps is stated only for an atlas that lists each element object once (`DistinctElements`). The source calls this private method only with a freshly created atlas, and the `Atlas` constructor guarantees that property.
- AtlasManagers.AtlasManager.FileElements: the same condition applies.
- AtlasManagers.AtlasManager.LoadAtlasFromTexture: the counter is an unbounded `nat`. The wrap of the C# `int` after 2^31 loads is not modelled; this applies to every load entry point.
- The overloads `LoadAtlasFromTexture` ×2 and `LoadFont` ×2 get distinct names: `LoadAtlasFromTextureWithData` and `LoadFontWithParams`.
- The atlas each load creates is returned as a ghost out-parameter, so that the contracts can name it. The source returns nothing.
- `AddAtlas`'s element loop and the unload's atlas scan are separate methods, `FileElements` and `RemoveAtlasesNamed`, called once from where the loop stands in the source. The inner element-removal loop, `WithoutElements`, works on the map value and assigns the result to the field. The source removes from the dictionary in place; no other reference to the dictionary exists, so the resulting state is the same.
- An unload removes element names from the map by name, as the code does, not "its elements" by identity. The two agree in every state: every element of a stored atlas is filed under its name, and no other stored atlas lists that name (`SurvivorsFiled`).
- Fonts: the `ArgumentException` that `Dictionary.Add` raises for a font name already registered is modelled as `DuplicateFontName`. The font has already been appended to the list at that point, so the list and the map disagree afterwards.
