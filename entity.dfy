/** The entity container: a fixed table of optional entities, looked up by
    slot index, by handle (serial and index packed into 32 bits) and by
    class, and the per-entity property lookup. */
module Entities {
  import opened Base
  import opened Schema

  /** What happened to an entity in a packet-entities update. */
  datatype EntityEvent = Created | Updated | Deleted

  /** `EntityEvents::from_cmd`: the update command codes 0, 2 and 3; any
      other code is unreachable in the source. */
  function FromCmd(cmd: u32): (e: EntityEvent)
    requires cmd == 0 || cmd == 2 || cmd == 3
    ensures e == Updated <==> cmd == 0
    ensures e == Created <==> cmd == 2
    ensures e == Deleted <==> cmd == 3
  {
    match cmd
    case 0 => Updated
    case 2 => Created
    case 3 => Deleted
  }

  /** `EntityError`. The display text of a field path is not part of this
      model, so a missing property carries the path itself. */
  datatype EntityError =
    | IndexNotFound(index: usize)
    | HandleNotFound(handle: bv64)
    | ClassIdNotFound(id: i32)
    | ClassNameNotFound(name: string)
    | PropertyNameNotFound(name: string, className: string, fieldPath: FieldPath)
    | FieldPathNotFound(error: PathError)

  /** What the container reads of an entity class: its id, its name and the
      fields of its serializer. */
  datatype Class = Class(id: i32, name: string, fields: seq<Field>)

  /** An entity; `index` and `serial` are `u32`s, kept as bit vectors
      because the handle packs them bitwise. */
  datatype Entity = Entity(index: bv32, serial: bv32, cls: Class, state: FieldState)

  /** `Entity::handle`: the serial shifted left by 14 bits (bits shifted
      past 32 are lost) over the index. */
  function Handle(e: Entity): (h: bv32)
    ensures e.index < 0x4000 ==> h & 0x3fff == e.index
  {
    (e.serial << 14) | e.index
  }

  /** The bits above the index hold the low 18 bits of the serial. */
  lemma HandleSerial(e: Entity)
    requires e.index < 0x4000
    ensures Handle(e) >> 14 == e.serial & 0x3_ffff
  {
  }

  /** The slot a handle names: `handle & 0x3fff`, its low 14 bits. */
  function MaskIndex(handle: bv64): (i: bv64)
    ensures i == handle % 0x4000
    ensures i < 0x4000
    ensures i == handle <==> handle < 0x4000
  {
    handle & 0x3fff
  }

  /** The handle of an entity whose index fits in 14 bits names the slot
      of its index. */
  lemma HandleIndex(e: Entity)
    requires e.index < 0x4000
    ensures MaskIndex(Handle(e) as bv64) == e.index as bv64
  {
  }

  /** The container: `entities_vec`, one optional entity per slot. */
  datatype Entities = Entities(slots: seq<Option<Entity>>)

  /** Number of slots of a fresh container. */
  const SlotCount: nat := 8192

  /** `Entities::default`: every slot empty. */
  function Default(): (c: Entities)
    ensures |c.slots| == SlotCount
    ensures forall i :: 0 <= i < |c.slots| ==> c.slots[i].None?
  {
    Entities(seq(SlotCount, _ => None))
  }

  /** `Entities::iter`: the entities of the occupied slots, in slot order. */
  function Iter(c: Entities): (es: seq<Entity>)
    ensures |es| == |Occupied(c.slots)|
    ensures forall k :: 0 <= k < |es| ==>
      Occupied(c.slots)[k] < |c.slots| && Some(es[k]) == c.slots[Occupied(c.slots)[k]]
  {
    var occ := Occupied(c.slots);
    OccupiedExactly(c.slots);
    seq(|occ|, k requires 0 <= k < |occ| => c.slots[occ[k]].value)
  }

  /** `Entities::get_by_index`: the entity at a slot; an index past the
      table or an empty slot is `IndexNotFound`, never a panic. */
  function GetByIndex(c: Entities, index: usize): (r: Result<Entity, EntityError>)
    ensures r.Ok? <==> index < |c.slots| && c.slots[index].Some?
    ensures r.Ok? ==> c.slots[index] == Some(r.value)
    ensures r.Err? ==> r.error == IndexNotFound(index)
  {
    if index < |c.slots| && c.slots[index].Some? then Ok(c.slots[index].value)
    else Err(IndexNotFound(index))
  }

  /** `Entities::get_by_handle`: the entity at the handle's slot; a failure
      reports the handle as given. */
  function GetByHandle(c: Entities, handle: bv64): (r: Result<Entity, EntityError>)
    ensures r.Ok? <==> GetByIndex(c, MaskIndex(handle) as int).Ok?
    ensures r.Ok? ==> r == GetByIndex(c, MaskIndex(handle) as int)
    ensures r.Err? ==> r.error == HandleNotFound(handle)
  {
    match GetByIndex(c, MaskIndex(handle) as int)
    case Ok(e) => Ok(e)
    case Err(_) => Err(HandleNotFound(handle))
  }

  /** The position of the first entity that `matches`, as `Iterator::find`
      scans. */
  function FirstMatch(es: seq<Entity>, matches: Entity -> bool): (r: Option<nat>)
    ensures r.Some? ==> r.value < |es| && matches(es[r.value])
    ensures r.Some? ==> forall j :: 0 <= j < r.value ==> !matches(es[j])
    ensures r.None? ==> forall j :: 0 <= j < |es| ==> !matches(es[j])
    decreases |es|
  {
    if es == [] then None
    else if matches(es[0]) then Some(0)
    else
      match FirstMatch(es[1..], matches)
      case None => None
      case Some(k) => Some(k + 1)
  }

  /** `Entities::get_by_class_id`: the entity of the lowest occupied slot
      whose class has the id. */
  function GetByClassId(c: Entities, id: i32): (r: Result<Entity, EntityError>)
    ensures r.Ok? <==> exists i :: 0 <= i < |c.slots| && c.slots[i].Some? && c.slots[i].value.cls.id == id
    ensures r.Ok? ==> r.value.cls.id == id
    ensures r.Ok? ==>
      exists i :: 0 <= i < |c.slots| && c.slots[i] == Some(r.value) &&
        forall j :: 0 <= j < i && c.slots[j].Some? ==> c.slots[j].value.cls.id != id
    ensures r.Err? ==> r.error == ClassIdNotFound(id)
  {
    var matches := (e: Entity) => e.cls.id == id;
    FirstOccupiedMatch(c, matches);
    match FirstMatch(Iter(c), matches)
    case Some(k) => Ok(Iter(c)[k])
    case None => Err(ClassIdNotFound(id))
  }

  /** `Entities::get_by_class_name`: the entity of the lowest occupied slot
      whose class has the name. */
  function GetByClassName(c: Entities, name: string): (r: Result<Entity, EntityError>)
    ensures r.Ok? <==> exists i :: 0 <= i < |c.slots| && c.slots[i].Some? && c.slots[i].value.cls.name == name
    ensures r.Ok? ==> r.value.cls.name == name
    ensures r.Ok? ==>
      exists i :: 0 <= i < |c.slots| && c.slots[i] == Some(r.value) &&
        forall j :: 0 <= j < i && c.slots[j].Some? ==> c.slots[j].value.cls.name != name
    ensures r.Err? ==> r.error == ClassNameNotFound(name)
  {
    var matches := (e: Entity) => e.cls.name == name;
    FirstOccupiedMatch(c, matches);
    match FirstMatch(Iter(c), matches)
    case Some(k) => Ok(Iter(c)[k])
    case None => Err(ClassNameNotFound(name))
  }

  /** A class search finds the entity of the lowest occupied slot whose
      class matches, and fails only when no occupied slot matches. */
  lemma {:induction false} FirstOccupiedMatch(c: Entities, matches: Entity -> bool)
    ensures var r := FirstMatch(Iter(c), matches);
      r.Some? ==>
        exists i :: 0 <= i < |c.slots| && c.slots[i] == Some(Iter(c)[r.value]) &&
          forall j :: 0 <= j < i && c.slots[j].Some? ==> !matches(c.slots[j].value)
    ensures FirstMatch(Iter(c), matches).None? <==>
      forall i :: 0 <= i < |c.slots| && c.slots[i].Some? ==> !matches(c.slots[i].value)
  {
    var es, occ := Iter(c), Occupied(c.slots);
    OccupiedExactly(c.slots);
    var r := FirstMatch(es, matches);
    forall i | 0 <= i < |c.slots| && c.slots[i].Some?
      ensures exists k :: 0 <= k < |occ| && occ[k] == i && es[k] == c.slots[i].value
    {
      var k :| 0 <= k < |occ| && occ[k] == i;
    }
    if r.Some? {
      var k := r.value;
      var i := occ[k];
      forall j | 0 <= j < i && c.slots[j].Some? ensures !matches(c.slots[j].value) {
        var kj :| 0 <= kj < |occ| && occ[kj] == j && es[kj] == c.slots[j].value;
      }
    } else {
      forall i | 0 <= i < |c.slots| && c.slots[i].Some? ensures !matches(c.slots[i].value) {
        var ki :| 0 <= ki < |occ| && occ[ki] == i && es[ki] == c.slots[i].value;
      }
    }
  }

  /** An entity whose index fits in 14 bits, stored at the slot of its
      index, is found again by its handle. */
  lemma HandleFindsEntity(c: Entities, e: Entity)
    requires e.index < 0x4000 && e.index as int < |c.slots| && c.slots[e.index as int] == Some(e)
    ensures GetByHandle(c, Handle(e) as bv64) == Ok(e)
  {
    HandleIndex(e);
  }

  /** `Entity::get_property_by_field_path`: the value the entity's state
      holds at the path; otherwise an error naming the path by the name walk
      as written, which panics where that walk has no name. */
  function PropertyByFieldPath(e: Entity, fp: FieldPath): (r: Result<FieldValue, EntityError>)
    requires GetValue(e.state, fp).Some? || NameFrom(e.cls.fields, fp, 0, false).Some?
    ensures r.Ok? <==> GetValue(e.state, fp).Some?
    ensures r.Ok? ==> GetValue(e.state, fp) == Some(r.value)
    ensures r.Err? ==>
      r.error == PropertyNameNotFound(NameFrom(e.cls.fields, fp, 0, false).value, e.cls.name, fp)
  {
    match GetValue(e.state, fp)
    case Some(v) => Ok(v)
    case None => Err(PropertyNameNotFound(NameFrom(e.cls.fields, fp, 0, false).value, e.cls.name, fp))
  }

  /** `Entity::get_property_by_name`: the name resolved to a path by the
      serializer (uncached here), then the property at that path. */
  function PropertyByName(e: Entity, name: string): (r: Result<FieldValue, EntityError>)
    requires PathOfName(e.cls.fields, name, true) != Panics
    requires PathOfName(e.cls.fields, name, true).Resolved? ==>
      var fp := PathOfName(e.cls.fields, name, true).fp;
      GetValue(e.state, fp).Some? || NameFrom(e.cls.fields, fp, 0, false).Some?
    ensures PathOfName(e.cls.fields, name, true).Failed? ==>
      r == Err(FieldPathNotFound(PathOfName(e.cls.fields, name, true).error))
    ensures PathOfName(e.cls.fields, name, true).Resolved? ==>
      r == PropertyByFieldPath(e, PathOfName(e.cls.fields, name, true).fp)
    ensures r.Ok? <==>
      PathOfName(e.cls.fields, name, true).Resolved? &&
      GetValue(e.state, PathOfName(e.cls.fields, name, true).fp).Some?
    ensures r.Ok? ==>
      GetValue(e.state, PathOfName(e.cls.fields, name, true).fp) == Some(r.value)
    ensures r.Err? && r.error.PropertyNameNotFound? ==>
      PathOfName(e.cls.fields, name, true) == Resolved(r.error.fieldPath)
  {
    match PathOfName(e.cls.fields, name, true)
    case Failed(err) => Err(FieldPathNotFound(err))
    case Resolved(fp) => PropertyByFieldPath(e, fp)
  }

  /** Reading a property by the name of a leaf path reads it at that path. */
  lemma PropertyByPathName(e: Entity, fp: FieldPath)
    requires LeafPath(e.cls.fields, fp, 0) && ZeroBelowCursor(fp)
    ensures NameFrom(e.cls.fields, fp, 0, true).Some?
    ensures PathOfName(e.cls.fields, NameFrom(e.cls.fields, fp, 0, true).value, true) == Resolved(fp)
    ensures PropertyByName(e, NameFrom(e.cls.fields, fp, 0, true).value) == PropertyByFieldPath(e, fp)
  {
    PathNameRoundTrip(e.cls.fields, fp);
    LeafNamed(e.cls.fields, fp, 0);
  }
}
