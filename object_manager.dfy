/** `Object` and `ObjectManager` (object_manager.cpp / object_manager.hpp): game objects holding at
    most one component per component type, and the list that creates them and numbers them by
    position.

    A `Component` is a heap object; `delete` on it is modelled by its `deleted` flag. The payload
    of the concrete component classes (positions, velocities, ...) is outside the model. The
    object list is a `std::vector<Object>`; `capacity` models the size of its buffer. */
module ObjectManager {
  import opened Wrappers

  /** `Component::CType`. */
  datatype CType = CTransform | CPhysics | CCollision | CModel

  class Component {
    const ctype: CType
    var parent: Object?
    var deleted: bool

    /** `Component(Type)`, as the concrete component classes call it. */
    constructor (t: CType)
      ensures ctype == t && parent == null && !deleted
    {
      ctype := t;
      parent := null;
      deleted := false;
    }

    /** `Transform(const Transform&)`: a `Transform` with the other one's fields, parent included. */
    constructor TransformCopy(other: Component)
      ensures ctype == CTransform && parent == other.parent && !deleted
    {
      ctype := CTransform;
      parent := other.parent;
      deleted := false;
    }
  }

  /** The component map `CreateObject(Components, Name)` builds from `m`: each component in turn
      is attached when no component of its type is there yet. */
  function Attach(m: map<CType, Component>, cs: seq<Component>): (r: map<CType, Component>)
    ensures forall t | t in m :: t in r && r[t] == m[t]
    ensures forall k | 0 <= k < |cs| :: cs[k].ctype in r
  {
    if cs == [] then m
    else
      var p := Attach(m, cs[..|cs| - 1]);
      var c := cs[|cs| - 1];
      if c.ctype in p then p else p[c.ctype := c]
  }

  /** The types present afterwards are those of `m` and those of the components. */
  lemma {:induction false} AttachKeys(m: map<CType, Component>, cs: seq<Component>)
    ensures Attach(m, cs).Keys == m.Keys + set c | c in cs :: c.ctype
  {
    if cs != [] {
      var n := |cs| - 1;
      AttachKeys(m, cs[..n]);
      assert forall d | d in cs :: d in cs[..n] || d == cs[n];
    }
  }

  /** No type in `m` holds `c`. */
  predicate Unheld(m: map<CType, Component>, c: Component) {
    forall t | t in m :: m[t] != c
  }

  /** The first component of each type wins: a type already in `m` keeps its component, and any
      other type gets the first component of that type in `cs`. */
  lemma {:induction false} AttachFirstWins(m: map<CType, Component>, cs: seq<Component>, k: nat)
    requires k < |cs| && cs[k].ctype !in m
    requires forall j | 0 <= j < k :: cs[j].ctype != cs[k].ctype
    ensures Attach(m, cs)[cs[k].ctype] == cs[k]
  {
    var n := |cs| - 1;
    if k < n {
      assert cs[..n][k] == cs[k];
      AttachFirstWins(m, cs[..n], k);
    } else {
      AttachKeys(m, cs[..n]);
      forall d | d in cs[..n]
        ensures d.ctype != cs[k].ctype
      {
        var j :| 0 <= j < n && cs[..n][j] == d;
      }
    }
  }

  /** With pairwise different types, none of them in `m`, every component is attached. */
  lemma AttachDistinct(m: map<CType, Component>, cs: seq<Component>)
    requires forall c | c in cs :: c.ctype !in m
    requires forall j, k | 0 <= j < k < |cs| :: cs[j].ctype != cs[k].ctype
    ensures forall c | c in cs :: Attach(m, cs)[c.ctype] == c
  {
    forall c | c in cs
      ensures Attach(m, cs)[c.ctype] == c
    {
      var k :| 0 <= k < |cs| && cs[k] == c;
      AttachFirstWins(m, cs, k);
    }
  }

  lemma AttachSnoc(m: map<CType, Component>, cs: seq<Component>, i: nat)
    requires i < |cs|
    ensures Attach(m, cs[..i + 1]) ==
              var p := Attach(m, cs[..i]);
              if cs[i].ctype in p then p else p[cs[i].ctype := cs[i]]
  {
    assert cs[..i + 1][..i] == cs[..i];
  }

  /** What `CreateObject(Components, Name)` does with a component it is handed: `o` holds it and
      is its parent, or it is deleted and its parent is still `parent`. */
  ghost predicate Handled(o: Object, c: Component, parent: Object?)
    reads o, c
  {
    if c.ctype in o.components && o.components[c.ctype] == c then c.parent == o && !c.deleted
    else c.deleted && c.parent == parent
  }

  /** `o` holds its own `Transform` and then what `Attach` gives for the components `cs`. */
  ghost predicate Assembled(o: Object, cs: seq<Component>)
    reads o
  {
    CTransform in o.components && o.components == Attach(map[CTransform := o.components[CTransform]], cs)
  }

  class Object {
    var id: int
    var name: string
    var components: map<CType, Component>

    /** Each component is filed under its own type. */
    ghost predicate Valid()
      reads this
    {
      forall t | t in components :: components[t].ctype == t
    }

    /** `Object()`: id -1, name "object" and one new `Transform`. */
    constructor ()
      ensures Valid() && id == -1 && name == "object"
      ensures components.Keys == {CTransform} && fresh(components[CTransform])
      ensures components[CTransform].parent == this
    {
      id := -1;
      name := "object";
      components := map[];
      new;
      var transform := new Component(CTransform);
      AddComponent(transform);
    }

    /** `Object(Name)`: id -1, the given name and one new `Transform`. */
    constructor Named(name: string)
      ensures Valid() && id == -1 && this.name == name
      ensures components.Keys == {CTransform} && fresh(components[CTransform])
      ensures components[CTransform].parent == this
    {
      id := -1;
      this.name := name;
      components := map[];
      new;
      var transform := new Component(CTransform);
      AddComponent(transform);
    }

    /** `Object(const Object&)`: id -1, the other's name, and a copy of its `Transform` when it
        has one; no other component is carried over. */
    constructor Copy(other: Object)
      ensures Valid() && id == -1 && name == other.name
      ensures components.Keys == if CTransform in other.components then {CTransform} else {}
      ensures CTransform in components ==>
                fresh(components[CTransform]) && components[CTransform].parent == this
    {
      id := -1;
      name := other.name;
      components := map[];
      new;
      var transform := other.GetComponentConst(CTransform);
      if transform.Some? {
        var copy := new Component.TransformCopy(transform.value);
        AddComponent(copy);
      }
    }

    /** `Clear`: the `Transform`, when there is one, is deleted and leaves the map. */
    method Clear()
      requires Valid()
      modifies this, if CTransform in components then {components[CTransform]} else {}
      ensures Valid() && id == old(id) && name == old(name)
      ensures components == old(components) - {CTransform}
      ensures CTransform in old(components) ==> old(components)[CTransform].deleted
    {
      var transform := GetComponent(CTransform);
      if transform.Some? {
        components := components - {CTransform};
        transform.value.deleted := true;
      }
    }

    /** `AddComponent`: the component's parent becomes this object in any case, but it is filed
        only when no component of its type is there (`emplace` keeps the existing entry). */
    method AddComponent(c: Component)
      requires Valid()
      modifies this, c
      ensures Valid() && id == old(id) && name == old(name)
      ensures c.parent == this && c.deleted == old(c.deleted)
      ensures c.ctype in components
      ensures components == if c.ctype in old(components) then old(components) else old(components)[c.ctype := c]
    {
      c.parent := this;
      if c.ctype !in components {
        components := components[c.ctype := c];
      }
    }

    /** `HasComponent`: whether a component of the type is present. */
    method HasComponent(t: CType) returns (r: bool)
      ensures r <==> t in components
    {
      r := t in components;
    }

    /** `GetComponent<T>`: the component of T's type, or null when there is none. */
    method GetComponent(t: CType) returns (r: Option<Component>)
      requires Valid()
      ensures r.None? <==> t !in components
      ensures r.Some? ==> r.value == components[t] && r.value.ctype == t
      ensures r == GetComponentConst(t)
    {
      if t !in components {
        return None;
      }
      r := Some(components[t]);
    }

    /** `GetComponentConst<T>`: the same lookup on a const object. */
    function GetComponentConst(t: CType): (r: Option<Component>)
      reads this
      ensures r.None? <==> t !in components
      ensures r.Some? && Valid() ==> r.value.ctype == t
    {
      if t in components then Some(components[t]) else None
    }

    /** `RemoveComponent<T>`: nothing happens when T's type is absent; otherwise that component
        is deleted and exactly its entry leaves the map. */
    method RemoveComponent(t: CType)
      requires Valid()
      modifies this, if t in components then {components[t]} else {}
      ensures Valid() && id == old(id) && name == old(name)
      ensures t !in old(components) ==> components == old(components)
      ensures t in old(components) ==> components == old(components) - {t} && old(components)[t].deleted
    {
      if t !in components {
        return;
      }
      components[t].deleted := true;
      components := components - {t};
    }
  }

  /** The capacity `std::vector` moves to when an element must be added to a full buffer of
      capacity `cap`: one and a half times as large, and at least `size`. */
  function Grow(cap: nat, size: nat): (r: nat)
    ensures r >= size && r >= cap
  {
    var geometric := cap + cap / 2;
    if geometric < size then size else geometric
  }

  class ObjectManager {
    var objects: seq<Object>
    var capacity: nat

    /** Every object's id is its position in the list. */
    ghost predicate Valid()
      reads this, objects
    {
      |objects| <= capacity
      && forall k | 0 <= k < |objects| :: objects[k].id == k && objects[k].Valid()
    }

    constructor ()
      ensures Valid() && objects == [] && capacity == 0
    {
      objects := [];
      capacity := 0;
    }

    /** `CreateObject(Name)`: a new object named `Name` joins the back of the list with its
        position as id; the objects already there stay the same objects (moved, not copied,
        when the buffer grows). */
    method CreateObject(name: string) returns (o: Object)
      requires Valid()
      modifies this
      ensures Valid()
      ensures objects == old(objects) + [o] && fresh(o) && o.id == |old(objects)| && o.name == name
      ensures o.Valid() && o.components.Keys == {CTransform} && fresh(o.components[CTransform])
      ensures o.components[CTransform].parent == o
      ensures capacity == if |old(objects)| < old(capacity) then old(capacity) else Grow(old(capacity), |old(objects)| + 1)
    {
      if |objects| == capacity {
        capacity := Grow(capacity, |objects| + 1);
      }
      o := new Object.Named(name);
      objects := objects + [o];
      o.id := |objects| - 1;
    }

    /** `CreateObject(Name)` as the source builds it: `Object` declares a copy constructor and no
        move constructor, so when `emplace_back` finds the buffer full, `std::vector` copies every
        object into the new buffer with `Object(const Object&)`. */
    method CreateObjectAsWritten(name: string) returns (o: Object)
      requires |objects| <= capacity
      modifies this
      ensures |objects| == |old(objects)| + 1 && |objects| <= capacity
      ensures o == objects[|old(objects)|] && fresh(o) && o.id == |old(objects)| && o.name == name
      ensures o.Valid() && o.components.Keys == {CTransform} && fresh(o.components[CTransform])
      ensures o.components[CTransform].parent == o
      ensures |old(objects)| < old(capacity) ==> objects[..|old(objects)|] == old(objects) && capacity == old(capacity)
      ensures |old(objects)| == old(capacity) ==> capacity == Grow(old(capacity), |old(objects)| + 1)
      ensures |old(objects)| == old(capacity) ==>
                forall k | 0 <= k < |old(objects)| ::
                  fresh(objects[k]) && objects[k].id == -1 && objects[k].name == old(objects[k].name)
                  && objects[k].components.Keys == (if CTransform in old(objects[k].components) then {CTransform} else {})
    {
      if |objects| == capacity {
        var copies: seq<Object> := [];
        for k := 0 to |objects|
          invariant |copies| == k && objects == old(objects) && capacity == old(capacity)
          invariant forall j | 0 <= j < k ::
                      fresh(copies[j]) && copies[j].id == -1 && copies[j].name == objects[j].name
                      && copies[j].components.Keys == (if CTransform in objects[j].components then {CTransform} else {})
        {
          var copy := new Object.Copy(objects[k]);
          copies := copies + [copy];
        }
        objects := copies;
        capacity := Grow(capacity, |objects| + 1);
      }
      o := new Object.Named(name);
      objects := objects + [o];
      o.id := |objects| - 1;
    }

    /** `CreateObject(Components, Name)`: a new object as `CreateObject(Name)` makes it, then each
        component in turn is attached when its type is absent and deleted otherwise. */
    method CreateObjectWith(cs: seq<Component>, name: string) returns (o: Object)
      requires Valid()
      requires forall c | c in cs :: !c.deleted
      requires forall j, k | 0 <= j < k < |cs| :: cs[j] != cs[k]
      modifies this, set c | c in cs
      ensures Valid()
      ensures objects == old(objects) + [o] && fresh(o) && o.id == |old(objects)| && o.name == name
      ensures Assembled(o, cs) && fresh(o.components[CTransform])
      ensures forall c | c in cs :: Handled(o, c, old(c.parent))
      ensures capacity == if |old(objects)| < old(capacity) then old(capacity) else Grow(old(capacity), |old(objects)| + 1)
    {
      o := CreateObject(name);
      assert o.components == map[CTransform := o.components[CTransform]];
      AttachAll(o, cs);
      forall k | 0 <= k < |objects|
        ensures objects[k].id == k && objects[k].Valid()
      {
        if k < |old(objects)| {
          assert objects[k] == old(objects)[k] != o;
        }
      }
    }

    /** The loop of `CreateObject(Components, Name)`: the components in turn, each attached to
        `o` when its type is absent and deleted otherwise. */
    static method AttachAll(o: Object, cs: seq<Component>)
      requires o.Valid()
      requires forall c | c in cs :: !c.deleted && Unheld(o.components, c)
      requires forall j, k | 0 <= j < k < |cs| :: cs[j] != cs[k]
      modifies o, set c | c in cs
      ensures o.Valid() && o.id == old(o.id) && o.name == old(o.name)
      ensures o.components == Attach(old(o.components), cs)
      ensures forall c | c in cs :: Handled(o, c, old(c.parent))
    {
      ghost var parents := map c | c in cs :: c.parent;
      ghost var m := o.components;
      for i := 0 to |cs|
        invariant o.Valid() && o.id == old(o.id) && o.name == old(o.name)
        invariant o.components == Attach(m, cs[..i])
        invariant forall k | 0 <= k < i :: Handled(o, cs[k], parents[cs[k]])
        invariant forall k | i <= k < |cs| :: !cs[k].deleted && cs[k].parent == parents[cs[k]]
        invariant forall k | i <= k < |cs| :: Unheld(o.components, cs[k])
      {
        AttachSnoc(m, cs, i);
        ghost var before := o.components;
        Offer(o, cs[i]);
        forall k | 0 <= k < i
          ensures Handled(o, cs[k], parents[cs[k]])
        {
          assert cs[k] != cs[i] && cs[..i][k] == cs[k];
          assert o.components[cs[k].ctype] == before[cs[k].ctype];
        }
      }
      assert cs[..|cs|] == cs;
    }

    /** One pass of the loop in `CreateObject(Components, Name)`: the component is attached when
        its type is absent and deleted otherwise. */
    static method Offer(o: Object, c: Component)
      requires o.Valid() && !c.deleted && Unheld(o.components, c)
      modifies o, c
      ensures o.Valid() && o.id == old(o.id) && o.name == old(o.name)
      ensures o.components == if c.ctype in old(o.components) then old(o.components) else old(o.components)[c.ctype := c]
      ensures Handled(o, c, old(c.parent))
    {
      var present := o.HasComponent(c.ctype);
      if !present {
        o.AddComponent(c);
      } else {
        c.deleted := true;
      }
    }

    /** `CreateObjects`: `CreateObject(Components, Name)` `Amount` times (no time for a
        non-positive `Amount`), handing the same components to every call. From the second call
        on each component is read again, so with two calls or more the components must survive
        the first: pairwise different types, none a `Transform`. Every new object then holds all
        of them, and they end up with the last object as parent. */
    method CreateObjects(cs: seq<Component>, name: string, amount: int)
      requires Valid()
      requires forall c | c in cs :: !c.deleted
      requires forall j, k | 0 <= j < k < |cs| :: cs[j] != cs[k]
      requires amount >= 2 ==> forall j, k | 0 <= j < k < |cs| :: cs[j].ctype != cs[k].ctype
      requires amount >= 2 ==> forall c | c in cs :: c.ctype != CTransform
      modifies this, set c | c in cs
      ensures Valid()
      ensures |objects| == |old(objects)| + (if amount > 0 then amount else 0)
      ensures objects[..|old(objects)|] == old(objects)
      ensures forall k | |old(objects)| <= k < |objects| ::
                fresh(objects[k]) && objects[k].name == name
                && Assembled(objects[k], cs) && fresh(objects[k].components[CTransform])
      ensures amount >= 1 ==> forall c | c in cs :: c.deleted || c.parent == objects[|objects| - 1]
      ensures amount >= 2 ==> forall c | c in cs :: !c.deleted
    {
      var i := 0;
      while i < amount
        invariant Valid()
        invariant 0 <= i <= (if amount > 0 then amount else 0)
        invariant |objects| == |old(objects)| + i && objects[..|old(objects)|] == old(objects)
        invariant forall k | |old(objects)| <= k < |objects| ::
                    fresh(objects[k]) && objects[k].name == name
                    && Assembled(objects[k], cs) && fresh(objects[k].components[CTransform])
        invariant i >= 1 ==> forall c | c in cs :: c.deleted || c.parent == objects[|objects| - 1]
        invariant amount >= 2 ==> forall c | c in cs :: !c.deleted
        invariant amount < 2 && i == 0 ==> forall c | c in cs :: !c.deleted
        decreases amount - i
      {
        var o := CreateObjectWith(cs, name);
        if amount >= 2 {
          AttachDistinct(map[CTransform := o.components[CTransform]], cs);
        }
        i := i + 1;
      }
    }
  }

  /** Two `CreateObject` calls on a new manager: the first allocates a buffer of one, the second
      finds it full and copies the first object, whose id becomes -1 instead of 0. */
  method GrowthResetsFirstId() returns (m: ObjectManager)
    ensures |m.objects| == 2 && m.objects[0].id == -1 && m.objects[1].id == 1
    ensures !m.Valid()
  {
    m := new ObjectManager();
    var first := m.CreateObjectAsWritten("first");
    assert m.capacity == 1;
    var second := m.CreateObjectAsWritten("second");
  }

  /** The corrected `CreateObject` keeps every id equal to its position through any growth. */
  method GrowthKeepsIds() returns (m: ObjectManager)
    ensures |m.objects| == 2 && m.objects[0].id == 0 && m.objects[1].id == 1
    ensures m.Valid()
  {
    m := new ObjectManager();
    var first := m.CreateObject("first");
    var second := m.CreateObject("second");
  }
}
