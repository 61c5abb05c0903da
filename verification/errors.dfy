/** The error manager: error messages grouped by named section, with
    automatic creation of sections, rejection of a message already present
    in its section, counting, listing, reset, and merging of another
    manager's messages. `ExcelErrorManager` is the same code without the
    merge and is modelled by the same members.

    The manager's dictionary is modelled as a sequence of sections in
    creation order; no statement below depends on that order except the
    order of the flat message list. */
module Errors {
  import opened Values

  datatype Section = Section(name: string, messages: seq<string>)

  type Manager = seq<Section>

  /** What `add` hands back: `list.append`'s `None` when the message is
      stored, `False` when it was already there. */
  datatype AddReturn = NoneReturned | FalseReturned

  const DefaultSection: string := "default"

  predicate NoDuplicates(s: seq<string>) {
    forall i, j :: 0 <= i < j < |s| ==> s[i] != s[j]
  }

  /** Section names are distinct keys and no section repeats a message. */
  predicate Valid(m: Manager) {
    && (forall i, j :: 0 <= i < j < |m| ==> m[i].name != m[j].name)
    && (forall i :: 0 <= i < |m| ==> NoDuplicates(m[i].messages))
  }

  predicate HasSection(m: Manager, name: string) {
    exists i :: 0 <= i < |m| && m[i].name == name
  }

  /** Position of the section called `name`. */
  function Find(m: Manager, name: string): (r: Option<nat>)
    ensures r.Some? ==> r.value < |m| && m[r.value].name == name
    ensures r.None? <==> !HasSection(m, name)
  {
    if |m| == 0 then None
    else if m[|m| - 1].name == name then Some(|m| - 1)
    else
      var r := Find(m[..|m| - 1], name);
      assert forall i :: 0 <= i < |m| - 1 ==> m[..|m| - 1][i] == m[i];
      r
  }

  /** The messages of section `name`, or none when it does not exist. */
  function Messages(m: Manager, name: string): seq<string> {
    match Find(m, name)
    case Some(i) => m[i].messages
    case None => []
  }

  /** A section argument of `None` means the default section. */
  function SectionKey(section: Option<string>): string {
    if section.None? then DefaultSection else section.value
  }

  /** `reset()` (also what the constructor does): only an empty default section. */
  function Reset(): (m: Manager)
    ensures Valid(m) && |m| == 1
    ensures forall name :: HasSection(m, name) <==> name == DefaultSection
    ensures forall name :: Messages(m, name) == []
  {
    var m := [Section(DefaultSection, [])];
    assert m[0].name == DefaultSection;
    m
  }

  /** `add_section`: creates an empty section unless one of that name exists. */
  function AddSection(m: Manager, name: string): (r: Manager)
    ensures HasSection(m, name) ==> r == m
    ensures !HasSection(m, name) ==> r == m + [Section(name, [])]
  {
    if Find(m, name).Some? then m else m + [Section(name, [])]
  }

  /** `add`: stores `error` at the end of its section, creating the section
      if needed, unless the section already holds it. */
  function Add(m: Manager, error: string, section: Option<string>): (r: (Manager, AddReturn))
  {
    var key := SectionKey(section);
    var m1 := AddSection(m, key);
    var i := Find(m1, key).value;
    if error !in m1[i].messages then
      (m1[i := Section(key, m1[i].messages + [error])], NoneReturned)
    else
      (m1, FalseReturned)
  }

  /** The section a message goes to exists afterwards; its message list
      grows by exactly `error` unless it held it already, in which case
      `False` is returned and nothing changes; other sections are untouched. */
  lemma AddSpec(m: Manager, error: string, section: Option<string>)
    requires Valid(m)
    ensures var (r, ret) := Add(m, error, section);
            var key := SectionKey(section);
            && Valid(r) && HasSection(r, key)
            && (ret == FalseReturned <==> error in Messages(m, key))
            && (ret == FalseReturned ==> r == m)
            && (ret == NoneReturned ==> Messages(r, key) == Messages(m, key) + [error])
            && (forall name :: name != key ==> Messages(r, name) == Messages(m, name))
  {
    var key := SectionKey(section);
    var m1 := AddSection(m, key);
    FindUnique(m1, key);
    var i := Find(m1, key).value;
    if !HasSection(m, key) {
      assert m1[|m|].name == key;
      assert Messages(m, key) == [];
      forall name | name != key
        ensures Messages(m1, name) == Messages(m, name)
      {
        SectionsAfterAppend(m, Section(key, []), name);
      }
    }
    if error !in m1[i].messages {
      var r := m1[i := Section(key, m1[i].messages + [error])];
      assert NoDuplicates(r[i].messages);
      FindUnique(r, key);
      forall name | name != key
        ensures Messages(r, name) == Messages(m1, name)
      {
        SectionsAfterUpdate(m1, i, Section(key, m1[i].messages + [error]), name);
      }
    }
  }

  /** In a manager with distinct names, `Find` gives the only position of a name. */
  lemma FindUnique(m: Manager, name: string)
    requires forall i, j :: 0 <= i < j < |m| ==> m[i].name != m[j].name
    ensures forall i :: 0 <= i < |m| && m[i].name == name ==> Find(m, name) == Some(i)
  {
  }

  lemma SectionsAfterAppend(m: Manager, s: Section, name: string)
    requires name != s.name
    ensures Messages(m + [s], name) == Messages(m, name)
  {
    assert (m + [s])[..|m|] == m;
  }

  /** `add_section` changes no section's messages: afterwards the section
      exists, the manager is still valid, and a second call does nothing. */
  lemma AddSectionSpec(m: Manager, name: string)
    requires Valid(m)
    ensures var r := AddSection(m, name);
            && Valid(r) && HasSection(r, name)
            && (forall n :: Messages(r, n) == Messages(m, n))
            && AddSection(r, name) == r
  {
    var r := AddSection(m, name);
    if !HasSection(m, name) {
      assert r[|m|].name == name;
      forall n
        ensures Messages(r, n) == Messages(m, n)
      {
        if n != name {
          SectionsAfterAppend(m, Section(name, []), n);
        } else {
          FindUnique(r, name);
        }
      }
    }
  }

  lemma SectionsAfterUpdate(m: Manager, i: nat, s: Section, name: string)
    requires i < |m| && m[i].name == s.name && name != s.name
    ensures Messages(m[i := s], name) == Messages(m, name)
  {
    FindOther(m, i, s, name);
  }

  lemma {:induction false} FindOther(m: Manager, i: nat, s: Section, name: string)
    requires i < |m| && m[i].name == s.name && name != s.name
    ensures Find(m[i := s], name) == Find(m, name)
    decreases |m|
  {
    var m' := m[i := s];
    var last := |m| - 1;
    if m[last].name == name {
      assert m'[last] == m[last];
      assert Find(m', name) == Some(last);
    } else if i < last {
      assert m'[last] == m[last];
      assert m'[..last] == m[..last][i := s];
      FindOther(m[..last], i, s, name);
      assert Find(m', name) == Find(m'[..last], name);
    } else {
      assert m'[last].name == s.name;
      assert m'[..last] == m[..last];
      assert Find(m', name) == Find(m[..last], name);
    }
  }

  /** Adding the same message twice is adding it once. */
  lemma AddIdempotent(m: Manager, error: string, section: Option<string>)
    requires Valid(m)
    ensures var first := Add(m, error, section).0;
            Add(first, error, section) == (first, FalseReturned)
  {
    AddSpec(m, error, section);
    var first := Add(m, error, section).0;
    AddSpec(first, error, section);
  }

  // ---------------------------------------------------------------------
  // Listing and counting

  /** All messages, section after section. */
  function Flatten(m: Manager): seq<string> {
    if |m| == 0 then [] else Flatten(m[..|m| - 1]) + m[|m| - 1].messages
  }

  /** A message is listed exactly when some section holds it. */
  lemma {:induction false} FlattenMembership(m: Manager, x: string)
    ensures x in Flatten(m) <==> exists i :: 0 <= i < |m| && x in m[i].messages
    decreases |m|
  {
    if |m| > 0 {
      var init := m[..|m| - 1];
      FlattenMembership(init, x);
      assert forall i :: 0 <= i < |init| ==> init[i] == m[i];
    }
  }

  /** Each section's messages appear in the flat list as one block, in
      their own order, right after the messages of the sections before it. */
  lemma {:induction false} FlattenBlock(m: Manager, i: nat)
    requires i < |m|
    ensures var lo := |Flatten(m[..i])|;
            && lo + |m[i].messages| <= |Flatten(m)|
            && Flatten(m)[lo..lo + |m[i].messages|] == m[i].messages
    decreases |m|
  {
    var init := m[..|m| - 1];
    if i == |m| - 1 {
      assert m[..i] == init;
    } else {
      FlattenBlock(init, i);
      assert init[..i] == m[..i];
      assert init[i] == m[i];
    }
  }

  /** `count()`: the total number of messages, summed section by section. */
  method Count(m: Manager) returns (count: nat)
    ensures count == |Flatten(m)|
  {
    count := 0;
    var i := 0;
    while i < |m|
      invariant i <= |m|
      invariant count == |Flatten(m[..i])|
    {
      assert m[..i + 1][..i] == m[..i];
      count := count + |m[i].messages|;
      i := i + 1;
    }
    assert m[..i] == m;
  }

  /** `all()`: every message, extended section by section. */
  method All(m: Manager) returns (listing: seq<string>)
    ensures listing == Flatten(m)
    ensures |listing| == |Flatten(m)|
    ensures forall x :: x in listing <==> exists i :: 0 <= i < |m| && x in m[i].messages
  {
    listing := [];
    var i := 0;
    while i < |m|
      invariant i <= |m|
      invariant listing == Flatten(m[..i])
    {
      assert m[..i + 1][..i] == m[..i];
      listing := listing + m[i].messages;
      i := i + 1;
    }
    assert m[..i] == m;
    forall x
      ensures x in listing <==> exists i :: 0 <= i < |m| && x in m[i].messages
    {
      FlattenMembership(m, x);
    }
  }

  /** The non-empty sections, in order: what `all(by_section=True)` maps. */
  function NonEmpty(m: Manager): seq<Section> {
    if |m| == 0 then []
    else NonEmpty(m[..|m| - 1]) + (if |m[|m| - 1].messages| > 0 then [m[|m| - 1]] else [])
  }

  /** `all(by_section=True)`: exactly the sections holding messages. */
  method AllBySection(m: Manager) returns (listing: seq<Section>)
    ensures forall s :: s in listing <==> s in m && |s.messages| > 0
  {
    listing := [];
    var i := 0;
    while i < |m|
      invariant i <= |m|
      invariant forall s :: s in listing <==> s in m[..i] && |s.messages| > 0
    {
      assert m[..i + 1] == m[..i] + [m[i]];
      if |m[i].messages| > 0 {
        listing := listing + [m[i]];
      }
      i := i + 1;
    }
    assert m[..i] == m;
  }

  /** The count grows by one exactly when `add` stores a message. */
  lemma CountAfterAdd(m: Manager, error: string, section: Option<string>)
    requires Valid(m)
    ensures var (r, ret) := Add(m, error, section);
            |Flatten(r)| == |Flatten(m)| + (if ret == NoneReturned then 1 else 0)
  {
    var key := SectionKey(section);
    var m1 := AddSection(m, key);
    if !HasSection(m, key) {
      assert m1[..|m1| - 1] == m;
    }
    var i := Find(m1, key).value;
    if error !in m1[i].messages {
      FlattenUpdate(m1, i, m1[i].messages + [error]);
    }
  }

  lemma {:induction false} FlattenUpdate(m: Manager, i: nat, msgs: seq<string>)
    requires i < |m|
    ensures |Flatten(m[i := Section(m[i].name, msgs)])| == |Flatten(m)| - |m[i].messages| + |msgs|
    decreases |m|
  {
    var m' := m[i := Section(m[i].name, msgs)];
    if i < |m| - 1 {
      assert m'[..|m'| - 1] == m[..|m| - 1][i := Section(m[i].name, msgs)];
      FlattenUpdate(m[..|m| - 1], i, msgs);
    } else {
      assert m'[..|m'| - 1] == m[..|m| - 1];
    }
  }

  // ---------------------------------------------------------------------
  // Merging

  /** Adds `msgs` one by one to section `name`. */
  function AddAll(m: Manager, msgs: seq<string>, name: string): Manager
    decreases |msgs|
  {
    if |msgs| == 0 then m else AddAll(Add(m, msgs[0], Some(name)).0, msgs[1..], name)
  }

  /** Adds every message of every section in `secs`, section by section. */
  function AddSections(m: Manager, secs: seq<Section>): Manager
    decreases |secs|
  {
    if |secs| == 0 then m else AddSections(AddAll(m, secs[0].messages, secs[0].name), secs[1..])
  }

  /** `fusion(other)`: adds every message of `other`'s non-empty sections to
      the section of the same name. */
  function Fusion(m: Manager, other: Manager): Manager {
    AddSections(m, NonEmpty(other))
  }

  /** `Grows(m, r)`: every section of `m` survives in `r` with its messages
      as a prefix. */
  ghost predicate Grows(m: Manager, r: Manager) {
    forall name :: Messages(m, name) <= Messages(r, name)
  }

  /** Adding a run of messages to one section: the manager stays valid,
      every section keeps its messages as a prefix, every message of the run
      ends up in the section, nothing else is added there, and the other
      sections are untouched. */
  lemma AddAllSpec(m: Manager, msgs: seq<string>, name: string)
    requires Valid(m)
    ensures Valid(AddAll(m, msgs, name)) && Grows(m, AddAll(m, msgs, name))
    ensures forall x :: x in msgs ==> x in Messages(AddAll(m, msgs, name), name)
    ensures forall other :: other != name ==> Messages(AddAll(m, msgs, name), other) == Messages(m, other)
    ensures forall x :: x in Messages(AddAll(m, msgs, name), name) ==> x in Messages(m, name) || x in msgs
  {
    AddAllGrows(m, msgs, name);
    AddAllContains(m, msgs, name);
    AddAllOnly(m, msgs, name);
  }

  /** One `add` to section `name` grows that section and leaves the rest. */
  lemma AddGrows(m: Manager, error: string, name: string)
    requires Valid(m)
    ensures var r := Add(m, error, Some(name)).0;
            && Valid(r) && Grows(m, r) && error in Messages(r, name)
            && (forall x :: x in Messages(r, name) ==> x in Messages(m, name) || x == error)
            && (forall other :: other != name ==> Messages(r, other) == Messages(m, other))
  {
    AddSpec(m, error, Some(name));
  }

  lemma {:induction false} AddAllGrows(m: Manager, msgs: seq<string>, name: string)
    requires Valid(m)
    ensures Valid(AddAll(m, msgs, name)) && Grows(m, AddAll(m, msgs, name))
    ensures forall other :: other != name ==> Messages(AddAll(m, msgs, name), other) == Messages(m, other)
    decreases |msgs|
  {
    if |msgs| > 0 {
      var m1 := Add(m, msgs[0], Some(name)).0;
      AddGrows(m, msgs[0], name);
      AddAllGrows(m1, msgs[1..], name);
      var r := AddAll(m, msgs, name);
      assert r == AddAll(m1, msgs[1..], name);
      forall other
        ensures Messages(m, other) <= Messages(r, other)
      {
        assert Messages(m, other) <= Messages(m1, other);
      }
    }
  }

  lemma {:induction false} AddAllContains(m: Manager, msgs: seq<string>, name: string)
    requires Valid(m)
    ensures forall x :: x in msgs ==> x in Messages(AddAll(m, msgs, name), name)
    decreases |msgs|
  {
    if |msgs| > 0 {
      var m1 := Add(m, msgs[0], Some(name)).0;
      AddGrows(m, msgs[0], name);
      AddAllContains(m1, msgs[1..], name);
      AddAllGrows(m1, msgs[1..], name);
      var r := AddAll(m, msgs, name);
      assert r == AddAll(m1, msgs[1..], name);
      assert Messages(m1, name) <= Messages(r, name);
      forall x | x in msgs
        ensures x in Messages(r, name)
      {
        if x != msgs[0] {
          assert x in msgs[1..];
        }
      }
    }
  }

  lemma {:induction false} AddAllOnly(m: Manager, msgs: seq<string>, name: string)
    requires Valid(m)
    ensures forall x :: x in Messages(AddAll(m, msgs, name), name) ==> x in Messages(m, name) || x in msgs
    decreases |msgs|
  {
    if |msgs| > 0 {
      var m1 := Add(m, msgs[0], Some(name)).0;
      AddGrows(m, msgs[0], name);
      AddAllOnly(m1, msgs[1..], name);
      var r := AddAll(m, msgs, name);
      assert r == AddAll(m1, msgs[1..], name);
      forall x | x in Messages(r, name)
        ensures x in Messages(m, name) || x in msgs
      {
        if x in msgs[1..] {
          assert x in msgs;
        }
      }
    }
  }

  lemma {:induction false} AddSectionsSpec(m: Manager, secs: seq<Section>)
    requires Valid(m)
    ensures Valid(AddSections(m, secs)) && Grows(m, AddSections(m, secs))
    ensures forall k, x :: 0 <= k < |secs| && x in secs[k].messages ==> x in Messages(AddSections(m, secs), secs[k].name)
    ensures forall name, x :: x in Messages(AddSections(m, secs), name) ==>
              x in Messages(m, name) || exists k :: 0 <= k < |secs| && secs[k].name == name && x in secs[k].messages
    decreases |secs|
  {
    if |secs| > 0 {
      var m1 := AddAll(m, secs[0].messages, secs[0].name);
      AddAllSpec(m, secs[0].messages, secs[0].name);
      AddSectionsSpec(m1, secs[1..]);
      var r := AddSections(m, secs);
      assert r == AddSections(m1, secs[1..]);
      forall name
        ensures Messages(m, name) <= Messages(r, name)
      {
        assert Messages(m, name) <= Messages(m1, name);
      }
      forall k, x | 0 <= k < |secs| && x in secs[k].messages
        ensures x in Messages(r, secs[k].name)
      {
        if k == 0 {
          assert x in Messages(m1, secs[0].name);
        } else {
          assert secs[1..][k - 1] == secs[k];
        }
      }
      forall name, x | x in Messages(r, name)
        ensures x in Messages(m, name) || exists k :: 0 <= k < |secs| && secs[k].name == name && x in secs[k].messages
      {
        if x !in Messages(m1, name) {
          var k :| 0 <= k < |secs[1..]| && secs[1..][k].name == name && x in secs[1..][k].messages;
          assert secs[k + 1] == secs[1..][k];
        } else if x !in Messages(m, name) {
          assert secs[0].name == name;
        }
      }
    }
  }

  lemma {:induction false} NonEmptySpec(m: Manager)
    ensures forall s :: s in NonEmpty(m) <==> s in m && |s.messages| > 0
    decreases |m|
  {
    if |m| > 0 {
      NonEmptySpec(m[..|m| - 1]);
      assert m == m[..|m| - 1] + [m[|m| - 1]];
    }
  }

  /** After `fusion`, every message `other` holds is in the section of the
      same name; the manager's own messages keep their places; and nothing
      else appears. */
  lemma FusionSpec(m: Manager, other: Manager)
    requires Valid(m)
    ensures Valid(Fusion(m, other)) && Grows(m, Fusion(m, other))
    ensures forall i, x :: 0 <= i < |other| && x in other[i].messages ==> x in Messages(Fusion(m, other), other[i].name)
    ensures forall name, x :: x in Messages(Fusion(m, other), name) ==>
              x in Messages(m, name) || exists i :: 0 <= i < |other| && other[i].name == name && x in other[i].messages
  {
    var secs := NonEmpty(other);
    NonEmptySpec(other);
    AddSectionsSpec(m, secs);
    forall i, x | 0 <= i < |other| && x in other[i].messages
      ensures x in Messages(Fusion(m, other), other[i].name)
    {
      assert other[i] in secs;
      var k :| 0 <= k < |secs| && secs[k] == other[i];
    }
    forall name, x | x in Messages(Fusion(m, other), name)
      ensures x in Messages(m, name) || exists i :: 0 <= i < |other| && other[i].name == name && x in other[i].messages
    {
      if x !in Messages(m, name) {
        var k :| 0 <= k < |secs| && secs[k].name == name && x in secs[k].messages;
        assert secs[k] in other;
      }
    }
  }
}
