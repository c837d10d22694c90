/** The entities the atlas manager keeps track of: atlases, the named
    elements they are cut into, fonts built on one element, and the
    process-wide counter that hands out atlas indices. */
module Atlases {

  /** The failures the manager raises. */
  datatype Error =
    | DuplicateElementName(name: string)  // an element name already known to the manager
    | ElementNotFound(name: string)       // lookup of an unknown element name
    | FontNotFound(name: string)          // lookup of an unknown font name
    | DuplicateFontName(name: string)     // the font dictionary refuses a second entry for a name

  /** Outcome of an operation that returns nothing or fails. */
  datatype Outcome = Pass | Fail(error: Error)

  /** Outcome of a lookup that returns a value or fails. */
  datatype Result<T> = Ok(value: T) | Err(error: Error)

  /** A named sub-region of an atlas. The owning atlas and a cached copy of
      its index are stamped onto the element when the manager inserts it. */
  class Element {
    const name: string
    var atlas: Atlas?
    var atlasIndex: int

    constructor (name: string)
      ensures this.name == name && atlas == null && atlasIndex == 0
    {
      this.name := name;
      atlas := null;
      atlasIndex := 0;
    }
  }

  /** The names of `es`, in order. */
  function NamesOf(es: seq<Element>): (names: seq<string>)
    ensures |names| == |es|
    ensures forall i :: 0 <= i < |es| ==> names[i] == es[i].name
  {
    seq(|es|, i requires 0 <= i < |es| => es[i].name)
  }

  /** A loaded atlas: a name, the index it was given at load time, and the
      elements its descriptor lists, in descriptor order. How the elements
      are read from the descriptor and the texture is outside this model;
      a new atlas gets one fresh, unstamped element per listed name. */
  class Atlas {
    const name: string
    const index: nat
    const elements: seq<Element>

    constructor (name: string, index: nat, elementNames: seq<string>)
      ensures this.name == name && this.index == index
      ensures ElementNames() == elementNames
      ensures forall e :: e in elements ==> fresh(e) && e.atlas == null && e.atlasIndex == 0
      ensures DistinctElements()
    {
      var es: seq<Element> := [];
      for i := 0 to |elementNames|
        invariant NamesOf(es) == elementNames[..i]
        invariant forall e :: e in es ==> fresh(e) && e.atlas == null && e.atlasIndex == 0
        invariant forall j, k :: 0 <= j < k < |es| ==> es[j] != es[k]
      {
        var e := new Element(elementNames[i]);
        es := es + [e];
      }
      this.name := name;
      this.index := index;
      this.elements := es;
    }

    /** No element object is listed twice. */
    predicate DistinctElements()
    {
      forall i, j :: 0 <= i < j < |elements| ==> elements[i] != elements[j]
    }

    /** The element names, in descriptor order. */
    function ElementNames(): seq<string>
    {
      NamesOf(elements)
    }
  }

  /** The bundle of text-rendering options a font is created with; its
      contents are not part of this model. */
  class TextParams {
    constructor ()
    {
    }
  }

  /** A font: a name bound to the element that supplies its glyph image and
      to the path of its glyph-layout configuration. */
  class Font {
    const name: string
    const element: Element
    const configPath: string
    const offsetX: real
    const offsetY: real
    const textParams: TextParams

    constructor (name: string, element: Element, configPath: string,
                 offsetX: real, offsetY: real, textParams: TextParams)
      ensures this.name == name && this.element == element && this.configPath == configPath
      ensures this.offsetX == offsetX && this.offsetY == offsetY && this.textParams == textParams
    {
      this.name := name;
      this.element := element;
      this.configPath := configPath;
      this.offsetX := offsetX;
      this.offsetY := offsetY;
      this.textParams := textParams;
    }
  }

  /** The next atlas index to hand out. The source keeps it in a static
      field, shared by every manager for the lifetime of the process; here
      it is one object that any number of managers may share. */
  class AtlasIndexCounter {
    var next: nat

    constructor ()
      ensures next == 0
    {
      next := 0;
    }
  }
}
