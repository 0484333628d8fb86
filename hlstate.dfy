/** The highlight state of a Neovim UI client: highlight attributes as
    values, and the `HLState` table that maps highlight-group names to ids
    and ids to attributes. */
module Highlight {
  import opened Bits
  import opened Colors

  /** Where a highlight attribute comes from. */
  datatype Kind = Syntax | UI

  /** One entry of an attribute's highlight-state info; carried through
      unchanged and not interpreted. */
  datatype AttrState = AttrState(kind: Kind, hiName: string, uiName: string, id: uint16)

  /** Data for a single highlight attribute. */
  datatype HLAttr = HLAttr(
    hlId: int32,
    reverse: bool,
    special: Color,
    foreground: Color,
    background: Color,
    state: seq<AttrState>)

  /** Name-to-id and id-to-attribute maps, plus the default colours. */
  class HLState {
    var defaultColors: HLAttr
    var nameToId: map<string, uint32>
    var idToAttr: map<int32, HLAttr>

    constructor ()
      ensures nameToId == map[] && idToAttr == map[]
    {
      var black := Color(0, 0, 0);
      defaultColors := HLAttr(0, false, black, black, black, []);
      nameToId := map[];
      idToAttr := map[];
    }

    /** `set_name_id`: binds `name` to `hlId`, replacing any earlier binding
        of that name; every other name, every attribute and the default
        colours are left as they were. */
    method SetNameId(name: string, hlId: uint32)
      modifies this
      ensures nameToId == old(nameToId)[name := hlId]
      ensures idToAttr == old(idToAttr) && defaultColors == old(defaultColors)
      ensures hlId < 0x8000_0000 ==> IdForName(name) == hlId
      // follows from the first ensures; restated for the reader
      ensures forall n :: n in old(nameToId) && n != name ==> n in nameToId && nameToId[n] == old(nameToId)[n]
    {
      nameToId := nameToId[name := hlId];
    }

    /** `set_id_attr`: stores `attr` under `id`, replacing any earlier record
        for that id as a whole; every other id, every name binding and the
        default colours are left as they were. */
    method SetIdAttr(id: int32, attr: HLAttr)
      modifies this
      ensures idToAttr == old(idToAttr)[id := attr]
      ensures nameToId == old(nameToId) && defaultColors == old(defaultColors)
      ensures AttrForId(id) == attr
      // follows from the first ensures; restated for the reader
      ensures forall i :: i in old(idToAttr) && i != id ==> i in idToAttr && AttrForId(i) == old(idToAttr)[i]
    {
      idToAttr := idToAttr[id := attr];
    }

    /** `attr_for_id`: the attribute stored for `id`. */
    function AttrForId(id: int32): (a: HLAttr)
      reads this
      requires id in idToAttr
      ensures a == idToAttr[id]
    {
      idToAttr[id]
    }

    /** `id_for_name`: the id bound to `name`, as a C++ `int`. Ids that do
        not fit in an `int` are wrapped modulo 2^32 here, but nothing is
        promised about them. */
    function IdForName(name: string): (id: int32)
      reads this
      requires name in nameToId
      ensures nameToId[name] < 0x8000_0000 ==> id == nameToId[name]
    {
      var v: int := nameToId[name];
      if v < 0x8000_0000 then v else v - 0x1_0000_0000
    }

    /** `default_colors_get`: the current default colours. */
    function DefaultColorsGet(): (a: HLAttr)
      reads this
      ensures a == defaultColors
    {
      defaultColors
    }
  }

  /** A client: rebinding a name overwrites, and storing an attribute
      leaves the names and the defaults alone. */
  method Client(attr: HLAttr, other: HLAttr)
  {
    var hl := new HLState();
    hl.SetNameId("Normal", 5);
    assert hl.IdForName("Normal") == 5;
    hl.SetNameId("Normal", 9);
    assert hl.IdForName("Normal") == 9;
    assert hl.nameToId == map["Normal" := 9];

    var before := hl.DefaultColorsGet();
    hl.SetIdAttr(5, attr);
    hl.SetIdAttr(9, other);
    assert hl.AttrForId(5) == attr && hl.AttrForId(9) == other;
    hl.SetIdAttr(5, other);
    assert hl.AttrForId(5) == other;
    assert hl.IdForName("Normal") == 9;
    assert hl.DefaultColorsGet() == before;
  }
}
