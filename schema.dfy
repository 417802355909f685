/** The nested per-class field schema of a `Serializer`, as values, and the
    walks that its lookups perform, as recursive functions. Each walk gives
    `None` (or `Panics`) exactly where the Rust code would panic: an index out
    of range, an absent nested serializer, an unwrap of an absent generic. */
module Schema {
  import opened Base
  import opened Decimal

  /** What a `Serializer` reads of a field. */
  datatype Field = Field(
    varName: string,
    model: FieldModel,
    serializer: Option<Schema>,
    fieldType: FieldType,
    decoder: Decoder,
    baseDecoder: Decoder,
    childDecoder: Decoder)

  /** The ordered field list of a (nested) serializer. */
  datatype Schema = Schema(fields: seq<Field>)

  // ---------------------------------------------------------------------
  // Field path -> name

  /** The name walk from level `i`: the field at `path[i]` contributes its
      `var_name`; an array adds `.NNNN` for its element and stops; a variable
      table adds `.NNNN.` and continues in its nested serializer at `i + 2`.
      With `descendTables` false this is the walk as written, which stops at
      a fixed table; with it true a fixed table that the path goes below adds
      `.` and continues at `i + 1`. */
  function NameFrom(fields: seq<Field>, fp: FieldPath, i: nat, descendTables: bool): Option<string>
    decreases PathLen - i
  {
    if i >= PathLen || fp.path[i] as int >= |fields| then None
    else
      var f := fields[fp.path[i]];
      match f.model
      case FixedArray | VariableArray =>
        if i + 1 < PathLen then Some(f.varName + "." + Pad4(fp.path[i + 1])) else None
      case VariableTable =>
        if i + 1 < PathLen && f.serializer.Some? then
          match NameFrom(f.serializer.value.fields, fp, i + 2, descendTables)
          case Some(rest) => Some(f.varName + "." + Pad4(fp.path[i + 1]) + "." + rest)
          case None => None
        else None
      case FixedTable =>
        if descendTables && i < fp.last then
          if f.serializer.Some? then
            match NameFrom(f.serializer.value.fields, fp, i + 1, descendTables)
            case Some(rest) => Some(f.varName + "." + rest)
            case None => None
          else None
        else Some(f.varName)
      case Simple => Some(f.varName)
  }

  // ---------------------------------------------------------------------
  // Field path -> addressed field, decoder and type

  /** Which part of a field a path addresses. */
  datatype Role =
    | Whole     // a simple field, or a fixed array read with one decoder
    | Presence  // the flag of a fixed table
    | Length    // the element count of a variable array or table
    | Element   // one element of a variable array

  datatype Target = Target(field: Field, role: Role)

  /** Reference definition of what a path addresses, by how many levels the
      path goes below the field at level `i` (`fp.last - i`). */
  function Addressed(fields: seq<Field>, fp: FieldPath, i: nat): Option<Target>
    decreases PathLen - i
  {
    if i >= PathLen || fp.path[i] as int >= |fields| then None
    else
      var f := fields[fp.path[i]];
      var below := fp.last - i;
      match f.model
      case Simple | FixedArray => Some(Target(f, Whole))
      case FixedTable =>
        if below <= 0 then Some(Target(f, Presence))
        else if f.serializer.Some? then Addressed(f.serializer.value.fields, fp, i + 1)
        else None
      case VariableArray =>
        if below == 1 then Some(Target(f, Element)) else Some(Target(f, Length))
      case VariableTable =>
        if below <= 1 then Some(Target(f, Length))
        else if f.serializer.Some? then Addressed(f.serializer.value.fields, fp, i + 2)
        else None
  }

  /** The decoder `set_model` installs for each role. */
  function RoleDecoder(t: Target): Decoder
  {
    match t.role
    case Whole => t.field.decoder
    case Presence => t.field.baseDecoder
    case Length => t.field.baseDecoder
    case Element => t.field.childDecoder
  }

  /** The type of each role; an element has the container's generic type. */
  function RoleType(t: Target): Option<FieldType>
  {
    match t.role
    case Element => t.field.fieldType.generic
    case _ => Some(t.field.fieldType)
  }

  /** The decoder walk: `i` is the level of the current field, and the
      checks compare `fp.last` with `i + 1`, the cursor after its increment. */
  function DecoderFrom(fields: seq<Field>, fp: FieldPath, i: nat): Option<Decoder>
    decreases PathLen - i
  {
    if i >= PathLen || fp.path[i] as int >= |fields| then None
    else
      var f := fields[fp.path[i]];
      var c := i + 1;
      match f.model
      case Simple | FixedArray => Some(f.decoder)
      case FixedTable =>
        if fp.last + 1 == c then Some(f.baseDecoder)
        else if f.serializer.Some? then DecoderFrom(f.serializer.value.fields, fp, c)
        else None
      case VariableArray =>
        if fp.last == c then Some(f.childDecoder) else Some(f.baseDecoder)
      case VariableTable =>
        if c >= fp.last then Some(f.baseDecoder)
        else if f.serializer.Some? then DecoderFrom(f.serializer.value.fields, fp, c + 1)
        else None
  }

  /** The type walk. With `ahead` false this is the walk as written: its
      checks compare `fp.last` with the level `i` itself (and `i - 1`, which
      wraps at zero in a release build); with `ahead` true they compare with
      `i + 1`, as the decoder walk does. */
  function TypeFrom(fields: seq<Field>, fp: FieldPath, i: nat, ahead: bool): Option<FieldType>
    decreases PathLen - i
  {
    if i >= PathLen || fp.path[i] as int >= |fields| then None
    else
      var f := fields[fp.path[i]];
      var c := if ahead then i + 1 else i;
      match f.model
      case Simple | FixedArray => Some(f.fieldType)
      case FixedTable =>
        if fp.last == WrappingSub(c, 1) then Some(f.fieldType)
        else if f.serializer.Some? then TypeFrom(f.serializer.value.fields, fp, i + 1, ahead)
        else None
      case VariableArray =>
        if fp.last == c then f.fieldType.generic else Some(f.fieldType)
      case VariableTable =>
        if c >= fp.last then Some(f.fieldType)
        else if f.serializer.Some? then TypeFrom(f.serializer.value.fields, fp, i + 2, ahead)
        else None
  }

  /** The decoder lookup returns the decoder of the role the path addresses. */
  lemma {:induction false} DecoderOfAddressed(fields: seq<Field>, fp: FieldPath, i: nat)
    requires i <= fp.last
    ensures DecoderFrom(fields, fp, i) ==
      match Addressed(fields, fp, i)
      case Some(t) => Some(RoleDecoder(t))
      case None => None
    decreases PathLen - i
  {
    if i < PathLen && fp.path[i] as int < |fields| {
      var f := fields[fp.path[i]];
      match f.model
      case FixedTable =>
        if fp.last != i && f.serializer.Some? {
          DecoderOfAddressed(f.serializer.value.fields, fp, i + 1);
        }
      case VariableTable =>
        if i + 1 < fp.last && f.serializer.Some? {
          DecoderOfAddressed(f.serializer.value.fields, fp, i + 2);
        }
      case _ =>
    }
  }

  /** With the cursor read as the decoder walk reads it, the type lookup
      returns the type of the role the path addresses. */
  lemma {:induction false} TypeOfAddressed(fields: seq<Field>, fp: FieldPath, i: nat)
    requires i <= fp.last
    ensures TypeFrom(fields, fp, i, true) ==
      match Addressed(fields, fp, i)
      case Some(t) => RoleType(t)
      case None => None
    decreases PathLen - i
  {
    if i < PathLen && fp.path[i] as int < |fields| {
      var f := fields[fp.path[i]];
      match f.model
      case FixedTable =>
        if fp.last != i && f.serializer.Some? {
          TypeOfAddressed(f.serializer.value.fields, fp, i + 1);
        }
      case VariableTable =>
        if i + 1 < fp.last && f.serializer.Some? {
          TypeOfAddressed(f.serializer.value.fields, fp, i + 2);
        }
      case _ =>
    }
  }

  // ---------------------------------------------------------------------
  // Name -> field path

  datatype PathError =
    | ParseIndex   // an element index did not parse as a `u8`
    | NoFieldPath  // "No field path for given name"

  /** Outcome of resolving a name; `Panics` where the Rust code panics. */
  datatype NameLookup = Resolved(fp: FieldPath) | Failed(error: PathError) | Panics

  /** Field `f` is the exact rest of the name. */
  predicate ExactMatch(f: Field, rest: string)
  {
    rest == f.varName
  }

  /** The rest of the name is `f`'s `var_name` followed by `.`. */
  predicate PrefixMatch(f: Field, rest: string)
  {
    |f.varName| < |rest| && rest[|f.varName|] == '.' && rest[..|f.varName|] == f.varName
  }

  /** One pass of the `'outer` loop: scan `fields` from index `k` for the
      first field that is the rest of `name` from `offset`, or its prefix
      followed by `.`. An exact match ends the walk; a prefix match records
      the field index and steps into the field according to its model. With
      `fixArrays` false an array step parses `name[..offset]`, as written;
      with it true it parses the element index `name[offset..]`. */
  function ScanFields(fields: seq<Field>, name: string, offset: nat, fp: FieldPath, k: nat, fixArrays: bool): NameLookup
    requires k <= |fields| && fp.last <= PathLen
    decreases PathLen - fp.last, |fields| - k, 1
  {
    if k == |fields| then Failed(NoFieldPath)
    else if offset > |name| then Panics
    else
      var f := fields[k];
      var rest := name[offset..];
      if ExactMatch(f, rest) then
        if fp.last < PathLen then Resolved(Set(fp, fp.last, LowByte(k))) else Panics
      else if PrefixMatch(f, rest) then
        if fp.last >= PathLen then Panics
        else EnterField(f, name, offset + |f.varName| + 1, Down(Set(fp, fp.last, LowByte(k))), fixArrays)
      else ScanFields(fields, name, offset, fp, k + 1, fixArrays)
  }

  /** The step into field `f` once its index is recorded in `inner` and the
      name has been read up to `next`, according to the field's model. */
  function EnterField(f: Field, name: string, next: nat, inner: FieldPath, fixArrays: bool): NameLookup
    requires next <= |name| && 0 < inner.last <= PathLen
    decreases PathLen - inner.last + 1, 0, 0
  {
    match f.model
    case FixedArray | VariableArray =>
      (match ParseU8(if fixArrays then name[next..] else name[..next])
       case None => Failed(ParseIndex)
       case Some(v) => if inner.last < PathLen then Resolved(Set(inner, inner.last, v)) else Panics)
    case FixedTable =>
      if f.serializer.Some? then ScanFields(f.serializer.value.fields, name, next, inner, 0, fixArrays)
      else Panics
    case VariableTable =>
      if next + 4 > |name| then Panics
      else
        (match ParseU8(name[next..next + 4])
         case None => Failed(ParseIndex)
         case Some(v) =>
           if inner.last >= PathLen || f.serializer.None? then Panics
           else ScanFields(f.serializer.value.fields, name, next + 5, Down(Set(inner, inner.last, v)), 0, fixArrays))
    case Simple => Panics
  }

  /** The uncached lookup of `get_field_path_for_name`, from a fresh path. */
  function PathOfName(fields: seq<Field>, name: string, fixArrays: bool): NameLookup
  {
    ScanFields(fields, name, 0, NewPath(), 0, fixArrays)
  }

  /** First match wins: a scan that reaches field `k` without a match before
      it gives what the scan from `k` gives. */
  lemma {:induction false} ScanSkips(fields: seq<Field>, name: string, offset: nat, fp: FieldPath, j: nat, k: nat, fixArrays: bool)
    requires j <= k < |fields| && fp.last <= PathLen && offset <= |name|
    requires forall m :: j <= m < k ==> !ExactMatch(fields[m], name[offset..]) && !PrefixMatch(fields[m], name[offset..])
    ensures ScanFields(fields, name, offset, fp, j, fixArrays) == ScanFields(fields, name, offset, fp, k, fixArrays)
    decreases k - j
  {
    if j < k {
      ScanSkips(fields, name, offset, fp, j + 1, k, fixArrays);
    }
  }

  /** When no field from `j` on matches the rest of the name, exactly or as
      a prefix, the scan fails with "no field path". */
  lemma {:induction false} ScanNoMatch(fields: seq<Field>, name: string, offset: nat, fp: FieldPath, j: nat, fixArrays: bool)
    requires j <= |fields| && fp.last <= PathLen && offset <= |name|
    requires forall m :: j <= m < |fields| ==> !ExactMatch(fields[m], name[offset..]) && !PrefixMatch(fields[m], name[offset..])
    ensures ScanFields(fields, name, offset, fp, j, fixArrays) == Failed(NoFieldPath)
    decreases |fields| - j
  {
    if j < |fields| {
      ScanNoMatch(fields, name, offset, fp, j + 1, fixArrays);
    }
  }

  // ---------------------------------------------------------------------
  // Round trip: field path -> name -> field path

  /** No `var_name` holds a `.`, and no two fields of one serializer share one. */
  predicate WellNamed(fields: seq<Field>)
  {
    && (forall m :: 0 <= m < |fields| ==> '.' !in fields[m].varName)
    && (forall m, n :: 0 <= m < n < |fields| ==> fields[m].varName != fields[n].varName)
  }

  /** A path from level `i` down to a leaf: a simple field, an array element,
      a fixed table's flag, or a leaf inside a fixed or variable table, with
      every serializer on the way well named. */
  predicate LeafPath(fields: seq<Field>, fp: FieldPath, i: nat)
    decreases PathLen - i
  {
    && i < PathLen
    && fp.path[i] as int < |fields|
    && WellNamed(fields)
    && var f := fields[fp.path[i]];
      match f.model
      case Simple => fp.last == i
      case FixedArray | VariableArray => fp.last == i + 1 && i + 1 < PathLen
      case FixedTable =>
        f.serializer.Some? &&
        (fp.last == i || (i < fp.last && LeafPath(f.serializer.value.fields, fp, i + 1)))
      case VariableTable =>
        f.serializer.Some? && i + 2 <= fp.last && LeafPath(f.serializer.value.fields, fp, i + 2)
  }

  /** Slots below the cursor are zero, as in a path built from `FieldPath::new()`. */
  predicate ZeroBelowCursor(fp: FieldPath)
  {
    forall j :: fp.last < j < PathLen ==> fp.path[j] == 0
  }

  /** In a well-named serializer, the field a name segment belongs to is the
      only one that matches it, exactly or as a prefix. */
  lemma OnlyOwnerMatches(fields: seq<Field>, k: nat, rest: string)
    requires WellNamed(fields) && k < |fields|
    requires ExactMatch(fields[k], rest) || PrefixMatch(fields[k], rest)
    ensures forall m :: 0 <= m < |fields| && m != k ==>
      !ExactMatch(fields[m], rest) && !PrefixMatch(fields[m], rest)
  {
    forall m | 0 <= m < |fields| && m != k
      ensures !ExactMatch(fields[m], rest) && !PrefixMatch(fields[m], rest)
    {
    }
  }

  /** The scan reaches the field that owns the name segment. */
  lemma ScanReachesOwner(fields: seq<Field>, name: string, offset: nat, acc: FieldPath, k: nat, fixArrays: bool)
    requires WellNamed(fields) && k < |fields| && acc.last <= PathLen && offset <= |name|
    requires ExactMatch(fields[k], name[offset..]) || PrefixMatch(fields[k], name[offset..])
    ensures ScanFields(fields, name, offset, acc, 0, fixArrays) == ScanFields(fields, name, offset, acc, k, fixArrays)
  {
    OnlyOwnerMatches(fields, k, name[offset..]);
    ScanSkips(fields, name, offset, acc, 0, k, fixArrays);
  }

  /** The path as the name walk has rebuilt it on reaching level `i`: the
      slots above `i` hold the path's values, the others zero. */
  function Prefix(fp: FieldPath, i: nat): (r: FieldPath)
    requires i <= PathLen
    ensures r.last == i
  {
    PathSlots(fp.path[..i] + seq(PathLen - i, _ => 0 as u8), i)
  }

  /** A name segment that is a field's own `var_name` resolves to the path
      ending at that field. */
  lemma ResolveEndsAt(fields: seq<Field>, fp: FieldPath, i: nat, name: string, offset: nat, acc: FieldPath)
    requires i < PathLen && fp.path[i] as int < |fields| && WellNamed(fields)
    requires fp.last == i && ZeroBelowCursor(fp) && acc == Prefix(fp, i)
    requires offset <= |name| && name[offset..] == fields[fp.path[i]].varName
    ensures ScanFields(fields, name, offset, acc, 0, true) == Resolved(fp)
  {
    var k := fp.path[i] as int;
    ScanReachesOwner(fields, name, offset, acc, k, true);
    assert Set(acc, i, LowByte(k)).path == fp.path;
  }

  /** Splitting `a.b` at its first `.` after `a`. */
  lemma DottedText(s: string, a: string, b: string)
    requires s == a + "." + b
    ensures |a| < |s| && s[|a|] == '.' && s[..|a|] == a && s[|a| + 1..] == b
  {
  }

  /** A segment `var_name.tail` at `offset` is matched by its field as a
      prefix only, and the walk goes on at `tail`. */
  lemma SegmentText(name: string, offset: nat, f: Field, tail: string)
    requires offset <= |name| && name[offset..] == f.varName + "." + tail
    ensures !ExactMatch(f, name[offset..]) && PrefixMatch(f, name[offset..])
    ensures name[offset + |f.varName| + 1..] == tail
  {
    DottedText(name[offset..], f.varName, tail);
    assert name[offset + |f.varName| + 1..] == name[offset..][|f.varName| + 1..];
  }

  /** Reading `NNNN.rest` from `next`: the four digits and the rest. */
  lemma EntryText(name: string, next: nat, digits: string, rest: string)
    requires |digits| == 4 && next <= |name| && name[next..] == digits + "." + rest
    ensures next + 5 <= |name|
    ensures name[next..next + 4] == digits
    ensures name[next + 5..] == rest
  {
    DottedText(name[next..], digits, rest);
    assert name[next..next + 4] == name[next..][..4];
    assert name[next + 5..] == name[next..][5..];
  }

  /** One step of the corrected scan into an array element. */
  lemma ScanArrayStep(fields: seq<Field>, name: string, offset: nat, fp: FieldPath, k: nat, v: u8)
    requires k < |fields| && offset <= |name| && fp.last + 1 < PathLen
    requires fields[k].model in {FixedArray, VariableArray}
    requires !ExactMatch(fields[k], name[offset..]) && PrefixMatch(fields[k], name[offset..])
    requires ParseU8(name[offset + |fields[k].varName| + 1..]) == Some(v)
    ensures ScanFields(fields, name, offset, fp, k, true) ==
      Resolved(Set(Down(Set(fp, fp.last, LowByte(k))), fp.last + 1, v))
  {
  }

  /** Writing the two slots of level `i` onto the written-above prefix rebuilds the path. */
  lemma RebuildTwo(acc: FieldPath, fp: FieldPath, i: nat)
    requires i + 1 < PathLen && fp.last == i + 1 && ZeroBelowCursor(fp) && acc == Prefix(fp, i)
    ensures Set(Down(Set(acc, i, LowByte(fp.path[i] as int))), i + 1, fp.path[i + 1]) == fp
  {
    var r := Set(Down(Set(acc, i, LowByte(fp.path[i] as int))), i + 1, fp.path[i + 1]);
    forall j | 0 <= j < PathLen
      ensures r.path[j] == fp.path[j]
    {
    }
    assert r.path == fp.path;
  }

  /** An array field followed by `.NNNN` resolves to the path of that element. */
  lemma ResolveArrayElement(fields: seq<Field>, fp: FieldPath, i: nat, name: string, offset: nat, acc: FieldPath)
    requires i + 1 < PathLen && fp.path[i] as int < |fields| && WellNamed(fields)
    requires fields[fp.path[i]].model in {FixedArray, VariableArray}
    requires fp.last == i + 1 && ZeroBelowCursor(fp) && acc == Prefix(fp, i)
    requires offset <= |name| && name[offset..] == fields[fp.path[i]].varName + "." + Pad4(fp.path[i + 1])
    ensures ScanFields(fields, name, offset, acc, 0, true) == Resolved(fp)
  {
    var k := fp.path[i] as int;
    var f := fields[k];
    var vn := f.varName;
    var v := fp.path[i + 1];
    var digits := Pad4(v);
    SegmentText(name, offset, f, digits);
    ParsePad4(v);
    ResolveArrayAt(fields, name, offset, acc, k, v);
    RebuildTwo(acc, fp, i);
  }

  /** The corrected scan of a name whose segment at `offset` is array field
      `k` followed by a parsable index records `k` and that index. */
  lemma ResolveArrayAt(fields: seq<Field>, name: string, offset: nat, acc: FieldPath, k: nat, v: u8)
    requires WellNamed(fields) && k < |fields| && offset <= |name| && acc.last + 1 < PathLen
    requires fields[k].model in {FixedArray, VariableArray}
    requires !ExactMatch(fields[k], name[offset..]) && PrefixMatch(fields[k], name[offset..])
    requires ParseU8(name[offset + |fields[k].varName| + 1..]) == Some(v)
    ensures ScanFields(fields, name, offset, acc, 0, true) ==
      Resolved(Set(Down(Set(acc, acc.last, LowByte(k))), acc.last + 1, v))
  {
    ScanReachesOwner(fields, name, offset, acc, k, true);
    ScanArrayStep(fields, name, offset, acc, k, v);
  }

  /** One step of the corrected scan into a fixed table's sub-serializer. */
  lemma ScanTableStep(fields: seq<Field>, name: string, offset: nat, fp: FieldPath, k: nat)
    requires k < |fields| && offset <= |name| && fp.last < PathLen
    requires fields[k].model == FixedTable && fields[k].serializer.Some?
    requires !ExactMatch(fields[k], name[offset..]) && PrefixMatch(fields[k], name[offset..])
    ensures ScanFields(fields, name, offset, fp, k, true) ==
      ScanFields(fields[k].serializer.value.fields, name, offset + |fields[k].varName| + 1,
                 Down(Set(fp, fp.last, LowByte(k))), 0, true)
  {
  }

  /** One step of the corrected scan into one entry of a variable table. */
  lemma ScanVarTableStep(fields: seq<Field>, name: string, offset: nat, fp: FieldPath, k: nat, v: u8)
    requires k < |fields| && offset <= |name| && fp.last + 1 < PathLen
    requires fields[k].model == VariableTable && fields[k].serializer.Some?
    requires !ExactMatch(fields[k], name[offset..]) && PrefixMatch(fields[k], name[offset..])
    requires offset + |fields[k].varName| + 5 <= |name|
    requires ParseU8(name[offset + |fields[k].varName| + 1..offset + |fields[k].varName| + 5]) == Some(v)
    ensures ScanFields(fields, name, offset, fp, k, true) ==
      ScanFields(fields[k].serializer.value.fields, name, offset + |fields[k].varName| + 6,
                 Down(Set(Down(Set(fp, fp.last, LowByte(k))), fp.last + 1, v)), 0, true)
  {
  }

  /** The corrected scan of a name whose segment at `offset` is fixed-table
      field `k` continues in that table's serializer. */
  lemma EnterFixedTable(fields: seq<Field>, name: string, offset: nat, acc: FieldPath, k: nat,
                        sub: seq<Field>, next: nat, inner: FieldPath, r: NameLookup)
    requires WellNamed(fields) && k < |fields| && offset <= |name| && acc.last < PathLen
    requires fields[k].model == FixedTable && fields[k].serializer == Some(Schema(sub))
    requires !ExactMatch(fields[k], name[offset..]) && PrefixMatch(fields[k], name[offset..])
    requires next == offset + |fields[k].varName| + 1 && inner == Down(Set(acc, acc.last, LowByte(k)))
    requires ScanFields(sub, name, next, inner, 0, true) == r
    ensures ScanFields(fields, name, offset, acc, 0, true) == r
  {
    ScanReachesOwner(fields, name, offset, acc, k, true);
    ScanTableStep(fields, name, offset, acc, k);
  }

  /** The corrected scan of a name whose segment at `offset` is variable-table
      field `k` and a parsable entry index continues in the table's serializer. */
  lemma EnterVarTable(fields: seq<Field>, name: string, offset: nat, acc: FieldPath, k: nat, v: u8,
                      sub: seq<Field>, mid: nat, inner: FieldPath, r: NameLookup)
    requires WellNamed(fields) && k < |fields| && offset <= |name| && acc.last + 1 < PathLen
    requires fields[k].model == VariableTable && fields[k].serializer == Some(Schema(sub))
    requires !ExactMatch(fields[k], name[offset..]) && PrefixMatch(fields[k], name[offset..])
    requires mid == offset + |fields[k].varName| + 1 && mid + 5 <= |name|
    requires ParseU8(name[mid..mid + 4]) == Some(v)
    requires inner == Down(Set(Down(Set(acc, acc.last, LowByte(k))), acc.last + 1, v))
    requires ScanFields(sub, name, mid + 5, inner, 0, true) == r
    ensures ScanFields(fields, name, offset, acc, 0, true) == r
  {
    ScanReachesOwner(fields, name, offset, acc, k, true);
    ScanVarTableStep(fields, name, offset, acc, k, v);
  }

  /** Recording the path's own slot `i` extends the rebuilt prefix by one level. */
  lemma WriteSlot(acc: FieldPath, fp: FieldPath, i: nat)
    requires i < PathLen && acc == Prefix(fp, i)
    ensures Down(Set(acc, i, LowByte(fp.path[i] as int))) == Prefix(fp, i + 1)
  {
    var r := Down(Set(acc, i, LowByte(fp.path[i] as int)));
    var p := Prefix(fp, i + 1);
    forall j | 0 <= j < PathLen
      ensures r.path[j] == p.path[j]
    {
      if j < i {
        assert r.path[j] == acc.path[j] == fp.path[..i][j];
      }
    }
    assert r.path == p.path;
  }

  /** Every leaf path has a name. */
  lemma {:induction false} LeafNamed(fields: seq<Field>, fp: FieldPath, i: nat)
    requires LeafPath(fields, fp, i)
    ensures NameFrom(fields, fp, i, true).Some?
    ensures NameFrom(fields, fp, i, false).Some?
    decreases PathLen - i
  {
    var f := fields[fp.path[i]];
    match f.model {
      case FixedTable =>
        if fp.last != i {
          LeafNamed(f.serializer.value.fields, fp, i + 1);
        }
      case VariableTable =>
        LeafNamed(f.serializer.value.fields, fp, i + 2);
      case _ =>
    }
  }

  /** Resolving a name whose rest from `offset` is the name of a leaf path
      from level `i`, with the slots above `i` already written, rebuilds
      that leaf path. */
  lemma {:induction false} ScanFindsLeaf(fields: seq<Field>, fp: FieldPath, i: nat, name: string, offset: nat, acc: FieldPath)
    requires LeafPath(fields, fp, i) && ZeroBelowCursor(fp) && acc == Prefix(fp, i)
    requires NameFrom(fields, fp, i, true).Some?
    requires offset <= |name| && name[offset..] == NameFrom(fields, fp, i, true).value
    ensures ScanFields(fields, name, offset, acc, 0, true) == Resolved(fp)
    decreases PathLen - i, 1
  {
    var f := fields[fp.path[i]];
    match f.model {
      case Simple =>
        ResolveEndsAt(fields, fp, i, name, offset, acc);
      case FixedArray =>
        ResolveArrayElement(fields, fp, i, name, offset, acc);
      case VariableArray =>
        ResolveArrayElement(fields, fp, i, name, offset, acc);
      case FixedTable =>
        if fp.last == i {
          ResolveEndsAt(fields, fp, i, name, offset, acc);
        } else {
          FixedTableSegment(fields, fp, i, name, offset);
          ResolveInFixedTable(fields, fp, i, name, offset, acc);
        }
      case VariableTable =>
        VarTableSegment(fields, fp, i, name, offset);
        ResolveInVarTable(fields, fp, i, name, offset, acc, f.serializer.value.fields, offset + |f.varName| + 1);
    }
  }

  /** The name of a leaf inside a fixed table is the table's `var_name`, a
      `.`, and the leaf's name in the table's serializer. */
  lemma FixedTableSegment(fields: seq<Field>, fp: FieldPath, i: nat, name: string, offset: nat)
    requires LeafPath(fields, fp, i) && fields[fp.path[i]].model == FixedTable && i < fp.last
    requires NameFrom(fields, fp, i, true).Some?
    requires offset <= |name| && name[offset..] == NameFrom(fields, fp, i, true).value
    ensures var f := fields[fp.path[i]];
      && f.serializer.Some?
      && LeafPath(f.serializer.value.fields, fp, i + 1)
      && NameFrom(f.serializer.value.fields, fp, i + 1, true).Some?
      && !ExactMatch(f, name[offset..]) && PrefixMatch(f, name[offset..])
      && name[offset + |f.varName| + 1..] == NameFrom(f.serializer.value.fields, fp, i + 1, true).value
  {
    var f := fields[fp.path[i]];
    var vn := f.varName;
    var sub := f.serializer.value.fields;
    LeafNamed(sub, fp, i + 1);
    var subName := NameFrom(sub, fp, i + 1, true).value;
    SegmentText(name, offset, f, subName);
  }

  /** A name through a fixed table resolves through its sub-serializer. */
  lemma {:induction false} ResolveInFixedTable(fields: seq<Field>, fp: FieldPath, i: nat, name: string, offset: nat, acc: FieldPath)
    requires i < PathLen && fp.path[i] as int < |fields| && WellNamed(fields)
    requires fields[fp.path[i]].model == FixedTable && fields[fp.path[i]].serializer.Some?
    requires ZeroBelowCursor(fp) && acc == Prefix(fp, i)
    requires offset <= |name|
    requires !ExactMatch(fields[fp.path[i]], name[offset..]) && PrefixMatch(fields[fp.path[i]], name[offset..])
    requires var sub := fields[fp.path[i]].serializer.value.fields;
      && LeafPath(sub, fp, i + 1)
      && NameFrom(sub, fp, i + 1, true).Some?
      && name[offset + |fields[fp.path[i]].varName| + 1..] == NameFrom(sub, fp, i + 1, true).value
    ensures ScanFields(fields, name, offset, acc, 0, true) == Resolved(fp)
    decreases PathLen - i, 0
  {
    var k := fp.path[i] as int;
    var f := fields[k];
    var sub := f.serializer.value.fields;
    var next := offset + |f.varName| + 1;
    var here := Down(Set(acc, i, LowByte(k)));
    WriteSlot(acc, fp, i);
    assert acc.last == i;
    assert here == Down(Set(acc, acc.last, LowByte(k)));
    ScanFindsLeaf(sub, fp, i + 1, name, next, here);
    EnterFixedTable(fields, name, offset, acc, k, sub, next, here, Resolved(fp));
  }

  /** The name of a leaf inside a variable table is the table's `var_name`,
      a `.`, the entry index in four digits, a `.`, and the leaf's name in
      the table's serializer. */
  lemma VarTableSegment(fields: seq<Field>, fp: FieldPath, i: nat, name: string, offset: nat)
    requires LeafPath(fields, fp, i) && fields[fp.path[i]].model == VariableTable
    requires NameFrom(fields, fp, i, true).Some?
    requires offset <= |name| && name[offset..] == NameFrom(fields, fp, i, true).value
    ensures var f := fields[fp.path[i]];
      var next := offset + |f.varName| + 1;
      && f.serializer.Some?
      && i + 2 <= fp.last
      && LeafPath(f.serializer.value.fields, fp, i + 2)
      && NameFrom(f.serializer.value.fields, fp, i + 2, true).Some?
      && !ExactMatch(f, name[offset..]) && PrefixMatch(f, name[offset..])
      && next + 5 <= |name|
      && ParseU8(name[next..next + 4]) == Some(fp.path[i + 1])
      && name[next + 5..] == NameFrom(f.serializer.value.fields, fp, i + 2, true).value
  {
    var f := fields[fp.path[i]];
    var vn := f.varName;
    var sub := f.serializer.value.fields;
    var idx := fp.path[i + 1];
    var digits := Pad4(idx);
    LeafNamed(sub, fp, i + 2);
    var subName := NameFrom(sub, fp, i + 2, true).value;
    var tail := digits + "." + subName;
    assert vn + "." + digits + "." + subName == vn + "." + tail;
    SegmentText(name, offset, f, tail);
    EntryText(name, offset + |vn| + 1, digits, subName);
    ParsePad4(idx);
  }

  /** A name through a variable-table entry resolves through its sub-serializer. */
  lemma {:induction false} ResolveInVarTable(fields: seq<Field>, fp: FieldPath, i: nat, name: string, offset: nat, acc: FieldPath,
                                            sub: seq<Field>, mid: nat)
    requires i + 2 < PathLen && fp.path[i] as int < |fields| && WellNamed(fields)
    requires fields[fp.path[i]].model == VariableTable && fields[fp.path[i]].serializer == Some(Schema(sub))
    requires ZeroBelowCursor(fp) && acc == Prefix(fp, i)
    requires offset <= |name|
    requires !ExactMatch(fields[fp.path[i]], name[offset..]) && PrefixMatch(fields[fp.path[i]], name[offset..])
    requires mid == offset + |fields[fp.path[i]].varName| + 1 && mid + 5 <= |name|
    requires ParseU8(name[mid..mid + 4]) == Some(fp.path[i + 1])
    requires LeafPath(sub, fp, i + 2) && NameFrom(sub, fp, i + 2, true).Some?
    requires name[mid + 5..] == NameFrom(sub, fp, i + 2, true).value
    ensures ScanFields(fields, name, offset, acc, 0, true) == Resolved(fp)
    decreases PathLen - i, 0
  {
    var k := fp.path[i] as int;
    var here := Down(Set(acc, i, LowByte(k)));
    var idx := fp.path[i + 1];
    var inner := Down(Set(here, i + 1, idx));
    WriteSlot(acc, fp, i);
    WriteSlot(here, fp, i + 1);
    assert acc.last == i && LowByte(idx as int) == idx;
    assert inner == Down(Set(Down(Set(acc, acc.last, LowByte(k))), acc.last + 1, idx));
    ScanFindsLeaf(sub, fp, i + 2, name, mid + 5, inner);
    EnterVarTable(fields, name, offset, acc, k, idx, sub, mid, inner, Resolved(fp));
  }

  /** Naming a leaf path and resolving the name gives the same path back. */
  lemma PathNameRoundTrip(fields: seq<Field>, fp: FieldPath)
    requires LeafPath(fields, fp, 0) && ZeroBelowCursor(fp)
    ensures NameFrom(fields, fp, 0, true).Some?
    ensures PathOfName(fields, NameFrom(fields, fp, 0, true).value, true) == Resolved(fp)
  {
    LeafNamed(fields, fp, 0);
    var name := NameFrom(fields, fp, 0, true).value;
    assert name[0..] == name;
    ScanFindsLeaf(fields, fp, 0, name, 0, NewPath());
  }

  // ---------------------------------------------------------------------
  // Round trip: name -> field path -> name

  /** The path's name walk goes below no fixed table: at every fixed table
      it reaches, the path stops at the table's own level. */
  predicate EntersNoFixedTable(fields: seq<Field>, fp: FieldPath, i: nat)
    decreases PathLen - i
  {
    i < PathLen && fp.path[i] as int < |fields| ==>
      var f := fields[fp.path[i]];
      match f.model
      case FixedTable => fp.last <= i
      case VariableTable =>
        i + 1 < PathLen && f.serializer.Some? ==> EntersNoFixedTable(f.serializer.value.fields, fp, i + 2)
      case _ => true
  }

  /** On such paths the name walk as written and the corrected one agree. */
  lemma {:induction false} NameFlagFree(fields: seq<Field>, fp: FieldPath, i: nat)
    requires EntersNoFixedTable(fields, fp, i)
    ensures NameFrom(fields, fp, i, false) == NameFrom(fields, fp, i, true)
    decreases PathLen - i
  {
    if i < PathLen && fp.path[i] as int < |fields| {
      var f := fields[fp.path[i]];
      if f.model == VariableTable && i + 1 < PathLen && f.serializer.Some? {
        NameFlagFree(f.serializer.value.fields, fp, i + 2);
      }
    }
  }

  /** A schema none of whose serializers, at any depth, holds an array. */
  predicate ArrayFree(s: Schema)
    decreases s
  {
    forall m :: 0 <= m < |s.fields| ==>
      && s.fields[m].model != FixedArray && s.fields[m].model != VariableArray
      && (s.fields[m].serializer.Some? ==> ArrayFree(s.fields[m].serializer.value))
  }

  /** Without arrays the name lookup as written and the corrected one agree
      on every name, whatever it resolves to. */
  lemma {:induction false} ScanFlagFree(fields: seq<Field>, name: string, offset: nat, fp: FieldPath, k: nat)
    requires k <= |fields| && fp.last <= PathLen && ArrayFree(Schema(fields))
    ensures ScanFields(fields, name, offset, fp, k, false) == ScanFields(fields, name, offset, fp, k, true)
    decreases PathLen - fp.last, |fields| - k, 1
  {
    if k < |fields| && offset <= |name| {
      var f := fields[k];
      var rest := name[offset..];
      if ExactMatch(f, rest) {
      } else if PrefixMatch(f, rest) {
        if fp.last < PathLen {
          EnterFlagFree(f, name, offset + |f.varName| + 1, Down(Set(fp, fp.last, LowByte(k))));
        }
      } else {
        ScanFlagFree(fields, name, offset, fp, k + 1);
      }
    }
  }

  /** The step into a field that is no array, over array-free serializers. */
  lemma {:induction false} EnterFlagFree(f: Field, name: string, next: nat, inner: FieldPath)
    requires next <= |name| && 0 < inner.last <= PathLen
    requires f.model != FixedArray && f.model != VariableArray
    requires f.serializer.Some? ==> ArrayFree(f.serializer.value)
    ensures EnterField(f, name, next, inner, false) == EnterField(f, name, next, inner, true)
    decreases PathLen - inner.last + 1, 0, 0
  {
    match f.model
    case FixedTable =>
      if f.serializer.Some? {
        ScanFlagFree(f.serializer.value.fields, name, next, inner, 0);
      }
    case VariableTable =>
      if next + 4 <= |name| && ParseU8(name[next..next + 4]).Some? && inner.last < PathLen && f.serializer.Some? {
        var v := ParseU8(name[next..next + 4]).value;
        ScanFlagFree(f.serializer.value.fields, name, next + 5, Down(Set(inner, inner.last, v)), 0);
      }
    case _ =>
  }

  /** Whenever the lookup as written resolves a name, the corrected lookup
      resolves it to the same path: a resolved lookup never took an array
      step, since every array step as written fails. */
  lemma {:induction false} ScanResolvedAgrees(fields: seq<Field>, name: string, offset: nat, fp: FieldPath, k: nat)
    requires k <= |fields| && fp.last <= PathLen
    requires ScanFields(fields, name, offset, fp, k, false).Resolved?
    ensures ScanFields(fields, name, offset, fp, k, false) == ScanFields(fields, name, offset, fp, k, true)
    decreases PathLen - fp.last, |fields| - k, 1
  {
    if k < |fields| && offset <= |name| {
      var f := fields[k];
      var rest := name[offset..];
      if ExactMatch(f, rest) {
      } else if PrefixMatch(f, rest) {
        if fp.last < PathLen {
          assert name[offset + |f.varName|] == rest[|f.varName|];
          EnterResolvedAgrees(f, name, offset + |f.varName| + 1, Down(Set(fp, fp.last, LowByte(k))));
        }
      } else {
        ScanResolvedAgrees(fields, name, offset, fp, k + 1);
      }
    }
  }

  /** The step after `var_name.`, when it resolves as written, resolves the
      same way corrected. */
  lemma {:induction false} EnterResolvedAgrees(f: Field, name: string, next: nat, inner: FieldPath)
    requires 0 < next <= |name| && name[next - 1] == '.' && 0 < inner.last <= PathLen
    requires EnterField(f, name, next, inner, false).Resolved?
    ensures EnterField(f, name, next, inner, false) == EnterField(f, name, next, inner, true)
    decreases PathLen - inner.last + 1, 0, 0
  {
    match f.model
    case FixedArray =>
      ArrayStepAsWrittenFails(f, name, next, inner);
    case VariableArray =>
      ArrayStepAsWrittenFails(f, name, next, inner);
    case FixedTable =>
      if f.serializer.Some? {
        ScanResolvedAgrees(f.serializer.value.fields, name, next, inner, 0);
      }
    case VariableTable =>
      if next + 4 <= |name| && ParseU8(name[next..next + 4]).Some? && inner.last < PathLen && f.serializer.Some? {
        var v := ParseU8(name[next..next + 4]).value;
        ScanResolvedAgrees(f.serializer.value.fields, name, next + 5, Down(Set(inner, inner.last, v)), 0);
      }
    case Simple =>
  }

  /** The round trip as written: a name that the lookup as written resolves
      to a leaf path that goes below no fixed table, with canonical row
      texts, is what the name walk as written gives for that path. */
  lemma NameRoundTripAsWritten(fields: seq<Field>, name: string)
    requires PathOfName(fields, name, false).Resolved?
    requires LeafPath(fields, PathOfName(fields, name, false).fp, 0)
    requires EntersNoFixedTable(fields, PathOfName(fields, name, false).fp, 0)
    requires IndexesCanonical(fields, PathOfName(fields, name, false).fp, 0, name, 0)
    ensures NameFrom(fields, PathOfName(fields, name, false).fp, 0, false) == Some(name)
  {
    var fp := PathOfName(fields, name, false).fp;
    ScanResolvedAgrees(fields, name, 0, NewPath(), 0);
    NameRoundTrip(fields, name);
    NameFlagFree(fields, fp, 0);
  }

  /** The path of `m_x` in row 2 of `m_vecRows`. */
  const RowX: FieldPath := PathSlots([0, 2, 0, 0, 0, 0, 0], 2)

  /** As written, `m_vecRows.0002.m_x` resolves to row 2's `m_x` and that
      path is named `m_vecRows.0002.m_x` again. */
  lemma RowNameAsWritten()
    ensures PathOfName(Rows, "m_vecRows.0002.m_x", false) == Resolved(RowX)
    ensures NameFrom(Rows, RowX, 0, false) == Some("m_vecRows.0002.m_x")
  {
    var sub := Rows[0].serializer.value.fields;
    assert NameFrom(sub, RowX, 2, false) == Some("m_x");
    assert Pad4(2) == "0002";
    assert "m_vecRows" + "." + "0002" + "." + "m_x" == "m_vecRows.0002.m_x";
    assert LeafPath(Rows, RowX, 0);
    PathNameRoundTrip(Rows, RowX);
    NameFlagFree(Rows, RowX, 0);
    assert ArrayFree(Schema(sub));
    ScanFlagFree(Rows, "m_vecRows.0002.m_x", 0, NewPath(), 0);
  }

  /** The index texts a name spells along the path `fp` from level `i`, read
      from `offset`, are canonical: an array element is the last four
      characters, all decimal digits; a variable-table entry is four decimal
      digits followed by `.`. Every serializer on the way has at most 256
      fields, so that a field index is its own byte. */
  predicate IndexesCanonical(fields: seq<Field>, fp: FieldPath, i: nat, name: string, offset: nat)
    decreases PathLen - i
  {
    && |fields| <= 0x100
    && (i < PathLen && fp.path[i] as int < |fields| ==>
      var f := fields[fp.path[i]];
      var next := offset + |f.varName| + 1;
      match f.model
      case Simple => true
      case FixedArray | VariableArray => next + 4 == |name| && AllDigits(name[next..])
      case FixedTable =>
        f.serializer.Some? && i < fp.last ==> IndexesCanonical(f.serializer.value.fields, fp, i + 1, name, next)
      case VariableTable =>
        f.serializer.Some? ==>
          && next + 5 <= |name| && AllDigits(name[next..next + 4]) && name[next + 4] == '.'
          && IndexesCanonical(f.serializer.value.fields, fp, i + 2, name, next + 5))
  }

  /** A resolved scan leaves the slots above its starting level as they were
      and ends at that level or below. */
  lemma {:induction false} ScanKeepsAbove(fields: seq<Field>, name: string, offset: nat, acc: FieldPath, k: nat,
                                          fixArrays: bool, fp: FieldPath)
    requires k <= |fields| && acc.last <= PathLen
    requires ScanFields(fields, name, offset, acc, k, fixArrays) == Resolved(fp)
    ensures acc.last <= fp.last
    ensures forall j :: 0 <= j < acc.last ==> fp.path[j] == acc.path[j]
    decreases PathLen - acc.last, |fields| - k, 1
  {
    var f := fields[k];
    var rest := name[offset..];
    if ExactMatch(f, rest) {
    } else if PrefixMatch(f, rest) {
      EnterKeepsAbove(f, name, offset + |f.varName| + 1, Down(Set(acc, acc.last, LowByte(k))), fixArrays, fp);
    } else {
      ScanKeepsAbove(fields, name, offset, acc, k + 1, fixArrays, fp);
    }
  }

  /** The step into a field, once resolved, keeps the slots above it. */
  lemma {:induction false} EnterKeepsAbove(f: Field, name: string, next: nat, inner: FieldPath, fixArrays: bool, fp: FieldPath)
    requires next <= |name| && 0 < inner.last <= PathLen
    requires EnterField(f, name, next, inner, fixArrays) == Resolved(fp)
    ensures inner.last <= fp.last
    ensures forall j :: 0 <= j < inner.last ==> fp.path[j] == inner.path[j]
    decreases PathLen - inner.last + 1, 0, 0
  {
    match f.model
    case FixedTable =>
      ScanKeepsAbove(f.serializer.value.fields, name, next, inner, 0, fixArrays, fp);
    case VariableTable =>
      var v := ParseU8(name[next..next + 4]).value;
      ScanKeepsAbove(f.serializer.value.fields, name, next + 5, Down(Set(inner, inner.last, v)), 0, fixArrays, fp);
    case _ =>
  }

  /** A name the corrected scan from field `k` resolves to a leaf path, with
      canonical index texts, is the name of that path from the scan's level. */
  lemma {:induction false} ScanNamesBack(fields: seq<Field>, name: string, offset: nat, acc: FieldPath, k: nat, fp: FieldPath)
    requires k <= |fields| && acc.last <= PathLen
    requires ScanFields(fields, name, offset, acc, k, true) == Resolved(fp)
    requires LeafPath(fields, fp, acc.last) && IndexesCanonical(fields, fp, acc.last, name, offset)
    ensures offset <= |name| && NameFrom(fields, fp, acc.last, true) == Some(name[offset..])
    decreases PathLen - acc.last, |fields| - k, 2
  {
    var i := acc.last;
    var f := fields[k];
    var rest := name[offset..];
    if ExactMatch(f, rest) {
      assert fp.path[i] as int == k;
    } else if PrefixMatch(f, rest) {
      var next := offset + |f.varName| + 1;
      var inner := Down(Set(acc, i, LowByte(k)));
      EnterKeepsAbove(f, name, next, inner, true, fp);
      assert fp.path[i] as int == k;
      EnterNamesBack(fields, f, name, offset, inner, fp);
      assert rest == f.varName + "." + name[next..];
    } else {
      ScanNamesBack(fields, name, offset, acc, k + 1, fp);
    }
  }

  /** The step into field `f`, the field of the path at the level above
      `inner`'s, names the rest of the name after `f`'s `var_name` and `.`. */
  lemma {:induction false} EnterNamesBack(fields: seq<Field>, f: Field, name: string, offset: nat, inner: FieldPath, fp: FieldPath)
    requires 0 < inner.last <= PathLen && offset + |f.varName| + 1 <= |name|
    requires EnterField(f, name, offset + |f.varName| + 1, inner, true) == Resolved(fp)
    requires inner.last <= fp.last && fp.path[inner.last - 1] as int < |fields| && fields[fp.path[inner.last - 1]] == f
    requires LeafPath(fields, fp, inner.last - 1) && IndexesCanonical(fields, fp, inner.last - 1, name, offset)
    ensures NameFrom(fields, fp, inner.last - 1, true) == Some(f.varName + "." + name[offset + |f.varName| + 1..])
    decreases PathLen - inner.last + 1, 0, 1
  {
    match f.model
    case FixedArray =>
      ArrayNamesBack(fields, f, name, offset, inner, fp);
    case VariableArray =>
      ArrayNamesBack(fields, f, name, offset, inner, fp);
    case FixedTable =>
      FixedTableNamesBack(fields, f, name, offset, inner, fp);
    case VariableTable =>
      VarTableNamesBack(fields, f, name, offset, inner, fp);
  }

  /** An array element named by four digits is named back by them. */
  lemma ArrayNamesBack(fields: seq<Field>, f: Field, name: string, offset: nat, inner: FieldPath, fp: FieldPath)
    requires f.model in {FixedArray, VariableArray}
    requires 0 < inner.last <= PathLen && offset + |f.varName| + 1 <= |name|
    requires EnterField(f, name, offset + |f.varName| + 1, inner, true) == Resolved(fp)
    requires fp.path[inner.last - 1] as int < |fields| && fields[fp.path[inner.last - 1]] == f
    requires LeafPath(fields, fp, inner.last - 1) && IndexesCanonical(fields, fp, inner.last - 1, name, offset)
    ensures NameFrom(fields, fp, inner.last - 1, true) == Some(f.varName + "." + name[offset + |f.varName| + 1..])
  {
    var next := offset + |f.varName| + 1;
    var v := ParseU8(name[next..]).value;
    assert fp == Set(inner, inner.last, v);
    ParsedPad4(name[next..], v);
  }

  /** A name through a fixed table is named back through it. */
  lemma {:induction false} FixedTableNamesBack(fields: seq<Field>, f: Field, name: string, offset: nat, inner: FieldPath, fp: FieldPath)
    requires f.model == FixedTable
    requires 0 < inner.last <= PathLen && offset + |f.varName| + 1 <= |name|
    requires EnterField(f, name, offset + |f.varName| + 1, inner, true) == Resolved(fp)
    requires inner.last <= fp.last && fp.path[inner.last - 1] as int < |fields| && fields[fp.path[inner.last - 1]] == f
    requires LeafPath(fields, fp, inner.last - 1) && IndexesCanonical(fields, fp, inner.last - 1, name, offset)
    ensures NameFrom(fields, fp, inner.last - 1, true) == Some(f.varName + "." + name[offset + |f.varName| + 1..])
    decreases PathLen - inner.last + 1, 0, 0
  {
    var next := offset + |f.varName| + 1;
    var sub := f.serializer.value.fields;
    assert ScanFields(sub, name, next, inner, 0, true) == Resolved(fp);
    assert LeafPath(sub, fp, inner.last) && IndexesCanonical(sub, fp, inner.last, name, next);
    ScanNamesBack(sub, name, next, inner, 0, fp);
  }

  /** A name through a variable-table entry spelled with four digits and `.`
      is named back through it. */
  lemma {:induction false} VarTableNamesBack(fields: seq<Field>, f: Field, name: string, offset: nat, inner: FieldPath, fp: FieldPath)
    requires f.model == VariableTable
    requires 0 < inner.last <= PathLen && offset + |f.varName| + 1 <= |name|
    requires EnterField(f, name, offset + |f.varName| + 1, inner, true) == Resolved(fp)
    requires fp.path[inner.last - 1] as int < |fields| && fields[fp.path[inner.last - 1]] == f
    requires LeafPath(fields, fp, inner.last - 1) && IndexesCanonical(fields, fp, inner.last - 1, name, offset)
    ensures NameFrom(fields, fp, inner.last - 1, true) == Some(f.varName + "." + name[offset + |f.varName| + 1..])
    decreases PathLen - inner.last + 1, 0, 0
  {
    var i := inner.last - 1;
    var next := offset + |f.varName| + 1;
    var sub := f.serializer.value.fields;
    var v := ParseU8(name[next..next + 4]).value;
    var inner2 := Down(Set(inner, inner.last, v));
    assert ScanFields(sub, name, next + 5, inner2, 0, true) == Resolved(fp);
    ScanKeepsAbove(sub, name, next + 5, inner2, 0, true, fp);
    ParsedPad4(name[next..next + 4], v);
    assert LeafPath(sub, fp, i + 2) && IndexesCanonical(sub, fp, i + 2, name, next + 5);
    ScanNamesBack(sub, name, next + 5, inner2, 0, fp);
    VarTableNameText(fields, fp, i, name, next);
  }

  /** The name of a path through a variable-table entry, read off the text
      of the entry's index and of the rest. */
  lemma VarTableNameText(fields: seq<Field>, fp: FieldPath, i: nat, name: string, next: nat)
    requires i + 1 < PathLen && fp.path[i] as int < |fields|
    requires fields[fp.path[i]].model == VariableTable && fields[fp.path[i]].serializer.Some?
    requires next + 5 <= |name| && name[next + 4] == '.' && Pad4(fp.path[i + 1] as nat) == name[next..next + 4]
    requires NameFrom(fields[fp.path[i]].serializer.value.fields, fp, i + 2, true) == Some(name[next + 5..])
    ensures NameFrom(fields, fp, i, true) == Some(fields[fp.path[i]].varName + "." + name[next..])
  {
    var f := fields[fp.path[i]];
    var digits, rest := name[next..next + 4], name[next + 5..];
    assert name[next..] == digits + "." + rest;
    assert NameFrom(fields, fp, i, true) == Some(f.varName + "." + digits + "." + rest);
    assert f.varName + "." + digits + "." + rest == f.varName + "." + (digits + "." + rest);
  }

  /** Name -> path -> name: a name that resolves to a leaf path, spelling
      its indexes canonically, is the name of that path. */
  lemma NameRoundTrip(fields: seq<Field>, name: string)
    requires PathOfName(fields, name, true).Resolved?
    requires LeafPath(fields, PathOfName(fields, name, true).fp, 0)
    requires IndexesCanonical(fields, PathOfName(fields, name, true).fp, 0, name, 0)
    ensures NameFrom(fields, PathOfName(fields, name, true).fp, 0, true) == Some(name)
  {
    ScanNamesBack(fields, name, 0, NewPath(), 0, PathOfName(fields, name, true).fp);
  }

  // ---------------------------------------------------------------------
  // Discrepancies of the walks as written

  /** As written, the array step parses the name up to and including the
      `.` after the field's `var_name`, which never parses as a `u8`. */
  lemma ArrayStepAsWrittenFails(f: Field, name: string, next: nat, inner: FieldPath)
    requires f.model in {FixedArray, VariableArray}
    requires 0 < next <= |name| && name[next - 1] == '.' && 0 < inner.last <= PathLen
    ensures EnterField(f, name, next, inner, false) == Failed(ParseIndex)
  {
    ParseFailsOnTrailingDot(name[..next]);
  }

  /** So, as written, every name whose segment at `offset` is an array field
      followed by `.` fails to resolve, whatever index follows. */
  lemma ScanArrayAsWrittenFails(fields: seq<Field>, name: string, offset: nat, acc: FieldPath, k: nat)
    requires WellNamed(fields) && k < |fields| && offset <= |name| && acc.last < PathLen
    requires fields[k].model in {FixedArray, VariableArray}
    requires !ExactMatch(fields[k], name[offset..]) && PrefixMatch(fields[k], name[offset..])
    ensures ScanFields(fields, name, offset, acc, 0, false) == Failed(ParseIndex)
  {
    var vn := fields[k].varName;
    var next := offset + |vn| + 1;
    assert name[next - 1] == name[offset..][|vn|] == '.';
    ScanReachesOwner(fields, name, offset, acc, k, false);
    ArrayStepAsWrittenFails(fields[k], name, next, Down(Set(acc, acc.last, LowByte(k))));
  }

  /** A field with the given name, model, nested serializer and type, whose
      decoders are left at their defaults. */
  function Sample(name: string, model: FieldModel, sub: Option<Schema>, t: FieldType): Field
  {
    Field(name, model, sub, t, Default, Default, Default)
  }

  const Untyped: FieldType := FieldType("int32", None)

  /** A serializer whose only field is a variable array of handles. */
  const HandleType: FieldType := FieldType("CHandle", None)

  const Abilities: seq<Field> :=
    [Sample("m_hAbilities", VariableArray, None, FieldType("CUtlVector< CHandle >", Some(HandleType)))]

  const AbilityElement: FieldPath := PathSlots([0, 3, 0, 0, 0, 0, 0], 1)

  /** The element `m_hAbilities.0003` does not resolve as written. */
  lemma ArrayNameAsWritten()
    ensures PathOfName(Abilities, "m_hAbilities.0003", false) == Failed(ParseIndex)
  {
    var name := "m_hAbilities.0003";
    assert name[0..] == name;
    assert name[..12] == Abilities[0].varName;
    ScanArrayAsWrittenFails(Abilities, name, 0, NewPath(), 0);
  }

  /** With the index parsed after the `.`, the element's name is
      `m_hAbilities.0003` and it resolves back to slot 0, element 3. */
  lemma ArrayNameCorrected()
    ensures NameFrom(Abilities, AbilityElement, 0, true) == Some("m_hAbilities.0003")
    ensures PathOfName(Abilities, "m_hAbilities.0003", true) == Resolved(AbilityElement)
  {
    assert Pad4(AbilityElement.path[1]) == "0003";
    assert "m_hAbilities" + "." + "0003" == "m_hAbilities.0003";
    assert NameFrom(Abilities, AbilityElement, 0, true) == Some("m_hAbilities" + "." + Pad4(AbilityElement.path[1]));
    assert LeafPath(Abilities, AbilityElement, 0);
    PathNameRoundTrip(Abilities, AbilityElement);
  }

  /** As written, the name walk stops at a fixed table: every path into the
      table gets the table's own `var_name`, whatever lies below it. */
  lemma TableNameAsWritten(fields: seq<Field>, fp: FieldPath, i: nat)
    requires i < PathLen && fp.path[i] as int < |fields| && fields[fp.path[i]].model == FixedTable
    ensures NameFrom(fields, fp, i, false) == Some(fields[fp.path[i]].varName)
  {
  }

  /** A fixed table of two simple fields. */
  const Body: seq<Field> := [Sample("CBodyComponent", FixedTable,
    Some(Schema([Sample("m_cellX", Simple, None, Untyped), Sample("m_cellY", Simple, None, Untyped)])),
    FieldType("CBodyComponent", None))]

  const CellX: FieldPath := PathSlots([0, 0, 0, 0, 0, 0, 0], 1)
  const CellY: FieldPath := PathSlots([0, 1, 0, 0, 0, 0, 0], 1)

  /** As written, two different fields inside the table get the same name,
      so no lookup by name can give both paths back. */
  lemma TableNamesCollideAsWritten()
    ensures CellX != CellY
    ensures NameFrom(Body, CellX, 0, false) == NameFrom(Body, CellY, 0, false) == Some("CBodyComponent")
  {
    assert CellX.path[1] != CellY.path[1];
  }

  /** Descending into the table names them apart (and each name then
      resolves back to its path, by `PathNameRoundTrip`). */
  lemma TableNamesCorrected()
    ensures NameFrom(Body, CellX, 0, true) == Some("CBodyComponent.m_cellX")
    ensures NameFrom(Body, CellY, 0, true) == Some("CBodyComponent.m_cellY")
  {
    var sub := Body[0].serializer.value.fields;
    assert NameFrom(sub, CellX, 1, true) == Some("m_cellX");
    assert NameFrom(sub, CellY, 1, true) == Some("m_cellY");
    assert "CBodyComponent" + "." + "m_cellX" == "CBodyComponent.m_cellX";
    assert "CBodyComponent" + "." + "m_cellY" == "CBodyComponent.m_cellY";
  }

  /** An index written without its leading zeros resolves to the same
      element, whose name spells the index in four digits: the round trip
      from a name needs canonical index texts. */
  lemma ShortIndexExample()
    ensures PathOfName(Abilities, "m_hAbilities.3", true) == Resolved(AbilityElement)
    ensures NameFrom(Abilities, AbilityElement, 0, true) == Some("m_hAbilities.0003")
  {
    var name := "m_hAbilities.3";
    assert name[..12] == Abilities[0].varName && name[12] == '.';
    assert name[13..] == "3";
    assert ParseDigits("3") == Some(3);
    assert !ExactMatch(Abilities[0], name) && PrefixMatch(Abilities[0], name);
    ScanArrayStep(Abilities, name, 0, NewPath(), 0, 3);
    var fp := Set(Down(Set(NewPath(), 0, LowByte(0))), 1, 3);
    assert fp.path == AbilityElement.path;
    ArrayNameCorrected();
  }

  /** As written, the type walk gives a variable array's element the
      container's type and its length slot the element type: the reverse of
      the roles the decoder walk assigns. */
  lemma ArrayTypeAsWritten(fields: seq<Field>, fp: FieldPath, i: nat)
    requires i < PathLen && fp.path[i] as int < |fields| && fields[fp.path[i]].model == VariableArray
    ensures var f := fields[fp.path[i]];
      && (fp.last == i + 1 ==>
            TypeFrom(fields, fp, i, false) == Some(f.fieldType) &&
            Addressed(fields, fp, i) == Some(Target(f, Element)))
      && (fp.last == i ==>
            TypeFrom(fields, fp, i, false) == f.fieldType.generic &&
            Addressed(fields, fp, i) == Some(Target(f, Length)))
  {
  }

  /** For element 3 of `m_hAbilities` the walk as written gives the
      container's type `CUtlVector< CHandle >`, where the element's type is
      `CHandle`. */
  lemma ArrayTypeExample()
    ensures TypeFrom(Abilities, AbilityElement, 0, false) == Some(Abilities[0].fieldType)
    ensures TypeFrom(Abilities, AbilityElement, 0, true) == Some(HandleType)
    ensures TypeFrom(Abilities, AbilityElement, 0, false) != TypeFrom(Abilities, AbilityElement, 0, true)
  {
    TypeOfAddressed(Abilities, AbilityElement, 0);
  }

  /** As written, the type walk goes into a variable table's nested
      serializer already when the path stops one level below the table, the
      level of its length, so the length gets the type of a nested field. */
  lemma VarTableTypeAsWritten(fields: seq<Field>, fp: FieldPath, i: nat)
    requires i < PathLen && fp.path[i] as int < |fields| && fields[fp.path[i]].model == VariableTable
    requires fields[fp.path[i]].serializer.Some? && fp.last == i + 1
    ensures var f := fields[fp.path[i]];
      && TypeFrom(fields, fp, i, false) == TypeFrom(f.serializer.value.fields, fp, i + 2, false)
      && TypeFrom(fields, fp, i, true) == Some(f.fieldType)
      && Addressed(fields, fp, i) == Some(Target(f, Length))
  {
  }

  /** A variable table at the root, its rows holding one float field. */
  const Rows: seq<Field> := [Sample("m_vecRows", VariableTable,
    Some(Schema([Sample("m_x", Simple, None, FieldType("float32", None))])),
    FieldType("CUtlVector< Row >", None))]

  /** The path of the row count of `m_vecRows` (row slot 2 left over from an
      earlier element). */
  const RowsLength: FieldPath := PathSlots([0, 2, 0, 0, 0, 0, 0], 1)

  /** For the row count of `m_vecRows` the walk as written gives `float32`,
      the type of the rows' field, where the count has the table's type. */
  lemma VarTableTypeExample()
    ensures Addressed(Rows, RowsLength, 0) == Some(Target(Rows[0], Length))
    ensures TypeFrom(Rows, RowsLength, 0, false) == Some(FieldType("float32", None))
    ensures TypeFrom(Rows, RowsLength, 0, true) == Some(FieldType("CUtlVector< Row >", None))
  {
    TypeOfAddressed(Rows, RowsLength, 0);
  }

  /** A fixed table at the root, holding one simple field. */
  const Identity: seq<Field> := [Sample("m_pEntity", FixedTable,
    Some(Schema([Sample("m_nameStringableIndex", Simple, None, Untyped)])),
    FieldType("CEntityIdentity", None))]

  /** As written, the check `last == i - 1` cannot hold at level 0 (the
      subtraction wraps), so the path of the table's own flag gets the type
      of the table's first field instead of the table's type. */
  lemma TableTypeExample()
    ensures TypeFrom(Identity, NewPath(), 0, false) == Some(Untyped)
    ensures TypeFrom(Identity, NewPath(), 0, true) == Some(FieldType("CEntityIdentity", None))
  {
    TypeOfAddressed(Identity, NewPath(), 0);
  }
}
