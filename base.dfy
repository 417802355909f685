/** Shared vocabulary of the entity field-schema layer: the integer widths the
    Rust code works in, field paths, field models, decoders, field types and
    the sparse field-state tree that field paths address. */
module Base {

  datatype Option<+T> = None | Some(value: T)

  datatype Result<+T, +E> = Ok(value: T) | Err(error: E)

  type u8 = x: int | 0 <= x < 0x100
  type u32 = x: int | 0 <= x < 0x1_0000_0000
  type i32 = x: int | -0x8000_0000 <= x < 0x8000_0000
  type usize = x: int | 0 <= x < 0x1_0000_0000_0000_0000

  /** Rust's `v as u8`: keep the low byte (two's complement for negatives). */
  function LowByte(v: int): (b: u8)
    ensures 0 <= v < 0x100 ==> b == v
    ensures (v - b) % 0x100 == 0
  {
    v % 0x100
  }

  /** `a - b` on `usize` as a release build computes it: wrapping at zero. */
  function WrappingSub(a: usize, b: usize): (r: usize)
    ensures b <= a ==> r == a - b
    ensures a < b ==> r == a - b + 0x1_0000_0000_0000_0000
  {
    (a - b) % 0x1_0000_0000_0000_0000
  }

  /** Rust's `v as i32`: keep the low 32 bits, read in two's complement
      (also how `i32` arithmetic wraps in a release build). */
  function AsI32(v: int): (r: i32)
    ensures -0x8000_0000 <= v < 0x8000_0000 ==> r == v
    ensures (v - r) % 0x1_0000_0000 == 0
  {
    var low := v % 0x1_0000_0000;
    if low < 0x8000_0000 then low else low - 0x1_0000_0000
  }

  /** Rust's `v as usize` on a 64-bit target: negatives sign-extend, so they
      become values of at least 2^63. */
  function AsUsize(v: int): (r: usize)
    ensures 0 <= v < 0x1_0000_0000_0000_0000 ==> r == v
    ensures -0x1_0000_0000_0000_0000 <= v < 0 ==> r == v + 0x1_0000_0000_0000_0000
    ensures -0x8000_0000_0000_0000 <= v < 0 ==> r >= 0x8000_0000_0000_0000
  {
    v % 0x1_0000_0000_0000_0000
  }

  /** The slots that hold something, in ascending order. */
  function Occupied<T>(s: seq<Option<T>>): seq<nat>
    decreases |s|
  {
    if s == [] then [] else Occupied(s[..|s| - 1]) + (if s[|s| - 1].Some? then [|s| - 1] else [])
  }

  /** `Occupied` lists exactly the slots that hold something, each once,
      in ascending order. */
  lemma {:induction false} OccupiedExactly<T>(s: seq<Option<T>>)
    ensures forall j :: 0 <= j < |Occupied(s)| ==> Occupied(s)[j] < |s| && s[Occupied(s)[j]].Some?
    ensures forall i :: 0 <= i < |s| && s[i].Some? ==> i in Occupied(s)
    ensures forall j, k :: 0 <= j < k < |Occupied(s)| ==> Occupied(s)[j] < Occupied(s)[k]
    decreases |s|
  {
    if s != [] {
      var init := s[..|s| - 1];
      OccupiedExactly(init);
      assert forall i :: 0 <= i < |init| ==> init[i] == s[i];
    }
  }

  /** The occupied slots of one more slot. */
  lemma OccupiedStep<T>(s: seq<Option<T>>, i: nat)
    requires i < |s|
    ensures s[i].Some? ==> Occupied(s[..i + 1]) == Occupied(s[..i]) + [i]
    ensures s[i].None? ==> Occupied(s[..i + 1]) == Occupied(s[..i])
  {
    assert s[..i + 1][..i] == s[..i];
    assert Occupied(s[..i]) + [] == Occupied(s[..i]);
  }

  /** Number of slots of a field path. */
  const PathLen: nat := 7

  /** A walk through a class's nested field tree: one small index per level,
      and `last`, the depth of the deepest level in use. */
  datatype PathSlots = PathSlots(path: seq<u8>, last: nat)

  type FieldPath = p: PathSlots | |p.path| == PathLen
    witness PathSlots([0, 0, 0, 0, 0, 0, 0], 0)

  /** `FieldPath::new()`: every slot zero, cursor at the root level. */
  function NewPath(): (fp: FieldPath)
    ensures fp.last == 0
    ensures forall i :: 0 <= i < PathLen ==> fp.path[i] == 0
  {
    PathSlots([0, 0, 0, 0, 0, 0, 0], 0)
  }

  /** `fp.down()`: one level deeper. */
  function Down(fp: FieldPath): (r: FieldPath)
    ensures r.path == fp.path && r.last == fp.last + 1
  {
    fp.(last := fp.last + 1)
  }

  /** `fp.up(n)`: `n` levels up; `last` is unsigned, so `n` may not exceed it. */
  function Up(fp: FieldPath, n: nat): (r: FieldPath)
    requires n <= fp.last
    ensures r.path == fp.path && r.last + n == fp.last
  {
    fp.(last := fp.last - n)
  }

  /** `fp.set(i, v)` / `fp.path[i] = v`: overwrite one slot (out of range panics). */
  function Set(fp: FieldPath, i: nat, v: u8): (r: FieldPath)
    requires i < PathLen
    ensures r.last == fp.last && r.path[i] == v
    ensures forall j :: 0 <= j < PathLen && j != i ==> r.path[j] == fp.path[j]
  {
    fp.(path := fp.path[i := v])
  }

  /** How a field's values are laid out under its field-path slot. */
  datatype FieldModel = Simple | FixedArray | FixedTable | VariableArray | VariableTable

  /** A 32-bit float, kept as its bits: no float arithmetic is modelled. */
  datatype F32 = F32(bits: bv32)

  /** A value decoder. `Decoders::from_field` is not part of this model: the
      decoder it derives is kept symbolically, by every decoding property of
      the field it is given and whether the element (child) decoder was asked
      for. */
  datatype Decoder =
    | Default
    | Boolean
    | Unsigned
    | FromField(varType: string, encoder: string, encoderFlags: Option<i32>, bitCount: Option<i32>,
                lowValue: Option<F32>, highValue: Option<F32>, fieldType: Option<FieldType>, child: bool)

  /** A declared field type; `generic` is the element type of a container. */
  datatype FieldType = FieldType(baseType: string, generic: Option<FieldType>)

  /** A decoded property value; its representation is not part of this model. */
  datatype FieldValue = FieldValue(encoded: int)

  /** The sparse per-entity state: a tree of optional slots. */
  datatype FieldState = FieldState(state: seq<Option<States>>)

  datatype States = Value(value: FieldValue) | Sub(sub: FieldState)

  /** The slot a field path addresses, following `path[0..=last]` down the tree. */
  function StateAt(st: FieldState, fp: FieldPath, i: nat): Option<States>
    requires i <= fp.last
    decreases fp.last - i
  {
    if i >= PathLen || fp.path[i] as int >= |st.state| then None
    else if i == fp.last then st.state[fp.path[i]]
    else
      match st.state[fp.path[i]]
      case Some(Sub(s)) => StateAt(s, fp, i + 1)
      case _ => None
  }

  /** `FieldState::get`. */
  function GetState(st: FieldState, fp: FieldPath): Option<States>
  {
    StateAt(st, fp, 0)
  }

  /** `FieldState::get_value`: the value stored at the addressed slot, if any. */
  function GetValue(st: FieldState, fp: FieldPath): Option<FieldValue>
  {
    match GetState(st, fp)
    case Some(Value(v)) => Some(v)
    case _ => None
  }
}
