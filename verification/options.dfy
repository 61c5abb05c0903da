/** The options dictionary with attribute access, and the three-layer
    merge that builds an indicator table's options.

    An options object is a dictionary whose attribute reads go to its
    items: a missing key reads as `None`. Names that start with `_`, and
    the name of the `update` method, go to ordinary object lookup
    instead. `update` itself stores object attributes, which item reads
    never see. */
module Options {
  import opened Values
  import opened Text

  type Dict = map<string, Value>

  /** Items are the dictionary; attributes are what `setattr` stores. */
  datatype Options = Options(items: Dict, attributes: Dict)

  /** The outcome of reading an attribute: a dictionary item (or `None`),
      or a name handed to ordinary object lookup, which the model does not
      follow further. */
  datatype Attribute = Item(value: Value) | ObjectMember(name: string)

  predicate StartsWithUnderscore(name: string) {
    |name| > 0 && name[0] == '_'
  }

  /** The bypass test as written: `name in ('update')` tests `name` against
      the string `'update'` (the parentheses make no tuple), so every
      substring of "update" bypasses, among them "date", "up" and "". */
  predicate BypassesAsWritten(name: string) {
    StartsWithUnderscore(name) || IndexOf("update", name).Some?
  }

  /** The bypass test as intended: internal names and the `update` method. */
  predicate Bypasses(name: string) {
    StartsWithUnderscore(name) || name == "update"
  }

  function GetItem(d: Dict, name: string): Value {
    if name in d then d[name] else VNone
  }

  /** Attribute read as written. */
  function GetAttrAsWritten(o: Options, name: string): (r: Attribute)
    ensures BypassesAsWritten(name) <==> r.ObjectMember?
  {
    if BypassesAsWritten(name) then ObjectMember(name) else Item(GetItem(o.items, name))
  }

  /** Attribute read as intended: every name other than internal ones and
      `update` reads the item of that key, `None` when it is missing. */
  function GetAttr(o: Options, name: string): (r: Attribute)
    ensures Bypasses(name) <==> r.ObjectMember?
    ensures !Bypasses(name) && name in o.items ==> r == Item(o.items[name])
    ensures !Bypasses(name) && name !in o.items ==> r == Item(VNone)
  {
    if Bypasses(name) then ObjectMember(name) else Item(GetItem(o.items, name))
  }

  /** Whatever bypasses under the intended test bypasses as written too;
      the two reads agree on every other name that is not a substring of
      "update". */
  lemma GetAttrAgrees(o: Options, name: string)
    ensures Bypasses(name) ==> BypassesAsWritten(name)
    ensures !BypassesAsWritten(name) ==> GetAttrAsWritten(o, name) == GetAttr(o, name)
  {
    if name == "update" {
      assert OccursAt("update", name, 0);
    }
  }

  /** A key named "date" is stored but reads as an object member under the
      code as written, and as the stored item under the intended test. */
  lemma DateKeyBypasses(v: Value)
    ensures GetAttrAsWritten(Options(map["date" := v], map[]), "date") == ObjectMember("date")
    ensures GetAttr(Options(map["date" := v], map[]), "date") == Item(v)
  {
    assert OccursAt("update", "date", 2);
  }

  /** The option names the indicator engine reads never bypass, under
      either test. */
  lemma EngineOptionsAreItems(name: string)
    requires name in {"with_data", "with_total", "with_reference", "with_percentage"}
    ensures !Bypasses(name) && !BypassesAsWritten(name)
  {
    assert |name| > |"update"|;
  }

  /** Truth of the option `name`: a missing option is false. */
  predicate Enabled(o: Options, name: string)
    requires !Bypasses(name)
  {
    Truthy(GetAttr(o, name).value)
  }

  /** `update` as written: every pair becomes an object attribute, which
      item reads do not see. */
  function UpdateAsWritten(o: Options, d: Dict): (r: Options)
    ensures r.items == o.items
    ensures forall k :: k in d ==> k in r.attributes && r.attributes[k] == d[k]
  {
    o.(attributes := o.attributes + d)
  }

  /** `update` as intended, duplicating the dictionary's own `update`:
      every pair becomes an item. */
  function Update(o: Options, d: Dict): (r: Options)
    ensures forall k :: k in d ==> k in r.items && r.items[k] == d[k]
    ensures forall k :: k !in d ==> GetItem(r.items, k) == GetItem(o.items, k)
  {
    o.(items := o.items + d)
  }

  /** After the intended update a plain name reads the new value; after the
      update as written it still reads the old one. */
  lemma UpdateVisible(o: Options, name: string, v: Value)
    requires !Bypasses(name) && !BypassesAsWritten(name)
    ensures GetAttr(Update(o, map[name := v]), name) == Item(v)
    ensures GetAttrAsWritten(UpdateAsWritten(o, map[name := v]), name) == GetAttrAsWritten(o, name)
  {
  }

  // ---------------------------------------------------------------------
  // Option layers of an indicator table

  /** The engine-wide defaults. */
  function MainDefaults(): Dict {
    map["with_data" := VBool(true), "with_total" := VBool(false), "with_reference" := VBool(true)]
  }

  /** Layered lookup: keyword arguments win over the table's own defaults,
      which win over the engine-wide defaults. */
  function Layered(main: Dict, sub: Dict, kwargs: Dict, name: string): Value {
    if name in kwargs then kwargs[name]
    else if name in sub then sub[name]
    else GetItem(main, name)
  }

  /** `setup` as written: the engine-wide default dictionary is updated in
      place, so the merged result also becomes the new engine-wide
      defaults (second component) seen by every later table. */
  function SetupAsWritten(main: Dict, sub: Dict, kwargs: Dict): (r: (Options, Dict))
    ensures r.0.items == r.1
    ensures forall name :: GetItem(r.1, name) == Layered(main, sub, kwargs, name)
  {
    var opt := main + sub + kwargs;
    (Options(opt, map[]), opt)
  }

  /** `setup` as intended: the layers are merged without touching the
      engine-wide defaults. */
  function Setup(main: Dict, sub: Dict, kwargs: Dict): (o: Options)
    ensures forall name :: GetItem(o.items, name) == Layered(main, sub, kwargs, name)
    ensures o.attributes == map[]
  {
    Options(main + sub + kwargs, map[])
  }

  /** Option reads after `setup` follow the layer priority. */
  lemma SetupPriority(main: Dict, sub: Dict, kwargs: Dict, name: string)
    requires !Bypasses(name)
    ensures GetAttr(Setup(main, sub, kwargs), name) == Item(Layered(main, sub, kwargs, name))
    ensures SetupAsWritten(main, sub, kwargs).0 == Setup(main, sub, kwargs)
  {
  }

  /** A keyword argument given to one table leaks into the next table's
      options under the code as written, but not under the intended merge. */
  lemma SetupLeaks(name: string, v: Value)
    requires !Bypasses(name) && name !in MainDefaults() && v != VNone
    ensures var (_, main2) := SetupAsWritten(MainDefaults(), map[], map[name := v]);
            && GetAttr(SetupAsWritten(main2, map[], map[]).0, name) == Item(v)
            && GetAttr(Setup(MainDefaults(), map[], map[]), name) == Item(VNone)
  {
  }
}
