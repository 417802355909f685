# d2-stampede entity field schema, modelled in Dafny

d2-stampede parses Dota 2 replays. Each networked entity belongs to a class.
The class's `Serializer` lists the fields of its state, and any field can nest
a further serializer. A property is addressed in two ways:

- by a **field path**: up to seven small slot indices, one per nesting level,
  and a cursor `last`;
- by a dotted **name** such as `CBodyComponent.m_cellX` or
  `m_hAbilities.0003`.

Each field has a **model** that says how its values lie under its slot:

- simple;
- fixed or variable array;
- fixed or variable table.

This project models three parts of that layer:

- `d2-stampede/src/serializer.rs` (module `Serializers`). The class
  `Serializer` holds the field list and the name → path cache. Its loop
  methods do four things:
  - path → name;
  - path → type;
  - path → decoder;
  - name → path, with the cache;

  and it enumerates the paths of an entity's state. Module `Schema` holds the
  same walks as recursive functions over the field tree, with their
  properties. Among these are the round trips: the name of a leaf path
  resolves back to that path, and a name that resolves to a leaf path, with
  its indexes in four digits, is that path's name.
- `d2-stampede/src/entity.rs` (module `Entities`), as pure values:
  - the 8192-slot entity table;
  - lookup by index, by handle (serial and index packed into 32 bits), by
    class id and by class name;
  - property lookup by path and by name.
- `src/field.rs` (module `LegacyField`), the older per-field layout. The class
  `Field`:
  - is built from a flattened-serializer message;
  - is given its model in place;
  - answers name, type, decoder and path lookups at a given depth;
  - enumerates its own field paths.

Module `Base` holds the shared pieces:

- Rust's integer widths and casts;
- `FieldPath`;
- field models, decoders and types;
- the field-state tree.

Module `Decimal` holds `format!("{:04}")` and `str::parse`.

A Rust panic is `None` (or `Panics`) in a specification function. A method
that models panicking code requires that the specification does not panic.

## Model

| member | source | states |
|---|---|---|
| `Base.LowByte` | d2-stampede/src/serializer.rs:119 | `i as u8` keeps a value below 256 and otherwise agrees with it modulo 256 |
| `Base.WrappingSub` | d2-stampede/src/serializer.rs:57 | `i - 1` on `usize` is the difference when it is not negative and wraps by 2^64 below zero |
| `Base.AsI32` | src/field.rs:106 | `as i32` and `i32` arithmetic leave values in range alone and otherwise agree with them modulo 2^32 |
| `Base.AsUsize` | src/field.rs:73 | `pos as usize` leaves non-negative values alone and adds 2^64 to a negative one, so a negative `i32` becomes at least 2^63 and never equals a small cursor |
| `Base.OccupiedExactly` | src/field.rs:194-199 | the occupied-slot list holds exactly the slots that hold something, each once, in ascending order |
| `Base.NewPath` | d2-stampede/src/serializer.rs:114 | a fresh path has every slot zero and the cursor at the root |
| `Base.Down` | src/field.rs:193 | `down` moves the cursor one level deeper and keeps every slot |
| `Base.Up` | src/field.rs:200 | `up(n)` moves the cursor `n` levels up and keeps every slot |
| `Base.Set` | src/field.rs:196 | writing a slot stores the byte there and leaves every other slot and the cursor as they were |
| `Decimal.Pad4` | d2-stampede/src/serializer.rs:31 | `{:04}` renders an index as exactly four decimal digits |
| `Decimal.ParseU8` | d2-stampede/src/serializer.rs:138 | `parse::<u8>` succeeds exactly on decimal text (an optional `+`, then digits) whose value is below 256, and gives that value |
| `Decimal.ParseI64` | src/field.rs:161 | `parse::<i64>` reads an optional sign: after a leading `-` it gives the negated value of the digits (and fails on `-+`), otherwise the value of the unsigned text; it succeeds exactly when that value is in the `i64` range |
| `Decimal.ParsePad4` | d2-stampede/src/serializer.rs:36 | parsing a four-digit rendering gives the index back, as `u8` and as `i64` |
| `Decimal.Pad4Parse` | d2-stampede/src/serializer.rs:138 | a four-digit string is the rendering of the number it parses to |
| `Decimal.ParseAllDigits` | d2-stampede/src/serializer.rs:138 | a non-empty run of decimal digits parses to the number it denotes |
| `Decimal.ParsedPad4` | d2-stampede/src/serializer.rs:31 | four digits that parse as a `u8` are that byte's `{:04}` rendering |
| `Decimal.ParseFailsOnTrailingDot` | d2-stampede/src/serializer.rs:130 | text that ends in `.` never parses as a number |
| `Schema.DecoderOfAddressed` | d2-stampede/src/serializer.rs:80-109 | the decoder walk returns the decoder of the part of the field the path addresses: the field decoder for a whole field, the base decoder for a table flag or a length, the child decoder for an array element |
| `Schema.TypeOfAddressed` | d2-stampede/src/serializer.rs:47-78 | with the cursor compared as the decoder walk compares it, the type walk returns the type of the addressed part: the element type for an array element, the field type otherwise |
| `Schema.ScanNoMatch` | d2-stampede/src/serializer.rs:148 | when no field from the scan's position on matches the rest of the name, the lookup fails with "no field path" |
| `Schema.ScanSkips` | d2-stampede/src/serializer.rs:117-147 | the name scan takes the first field that matches: fields before it that match neither exactly nor as a prefix change nothing |
| `Schema.OnlyOwnerMatches` | d2-stampede/src/serializer.rs:118-123 | in a serializer whose field names are distinct and dot-free, only the owner of a name segment matches it |
| `Schema.ScanReachesOwner` | d2-stampede/src/serializer.rs:117-123 | the scan of such a serializer arrives at the segment's owner |
| `Schema.ResolveEndsAt` | d2-stampede/src/serializer.rs:118-121 | a segment that is a field's whole name ends the lookup at that field's path |
| `Schema.SegmentText` | d2-stampede/src/serializer.rs:122-127 | a segment `name.rest` is a prefix match only, and the lookup continues at `rest` |
| `Schema.ScanArrayStep` | d2-stampede/src/serializer.rs:129-132 | (corrected) an array step records the field index and the element index read after the `.` |
| `Schema.ResolveArrayAt` | d2-stampede/src/serializer.rs:122-132 | (corrected) a name segment naming an array element resolves to the field slot and the element slot |
| `Schema.ResolveArrayElement` | d2-stampede/src/serializer.rs:129-132 | (corrected) the name `var_name.NNNN` of an array element resolves to that element's path |
| `Schema.ScanTableStep` | d2-stampede/src/serializer.rs:133-136 | a fixed-table step records the field index, one level deeper, and continues in the table's serializer |
| `Schema.ScanVarTableStep` | d2-stampede/src/serializer.rs:137-142 | a variable-table step records the field index and the four-digit row index, two levels deeper, and continues after the row's `.` |
| `Schema.EnterFixedTable` | d2-stampede/src/serializer.rs:133-136 | resolving through a fixed table gives what resolving the rest in its serializer gives |
| `Schema.EnterVarTable` | d2-stampede/src/serializer.rs:137-142 | resolving through a variable-table row gives what resolving the rest in its serializer gives |
| `Schema.LeafNamed` | d2-stampede/src/serializer.rs:22-45 | every leaf path has a name, by the corrected name walk and by the walk as written |
| `Schema.FixedTableSegment` | d2-stampede/src/serializer.rs:27-43 | (corrected) the name of a leaf inside a fixed table is the table's name, `.`, and the leaf's name in the table |
| `Schema.VarTableSegment` | d2-stampede/src/serializer.rs:34-37 | the name of a leaf inside a variable table carries the row index in four digits that parse back to the row |
| `Schema.ResolveInFixedTable` | d2-stampede/src/serializer.rs:133-136 | (corrected) a leaf's name through a fixed table resolves to the leaf's path |
| `Schema.ResolveInVarTable` | d2-stampede/src/serializer.rs:137-142 | a leaf's name through a variable-table row resolves to the leaf's path |
| `Schema.ScanFindsLeaf` | d2-stampede/src/serializer.rs:116-149 | (corrected) resolving the name of a leaf from any level rebuilds the leaf path |
| `Schema.PathNameRoundTrip` | d2-stampede/src/serializer.rs:111-153 | (corrected) name then resolve is the identity on leaf paths: the lookup by name finds the path the name came from |
| `Schema.ScanKeepsAbove` | d2-stampede/src/serializer.rs:116-147 | a name lookup that resolves leaves the slots above its starting level as they were and ends at that level or deeper |
| `Schema.EnterKeepsAbove` | d2-stampede/src/serializer.rs:129-142 | the step into a field, once resolved, leaves the slots above it as they were |
| `Schema.ScanNamesBack` | d2-stampede/src/serializer.rs:116-149 | (corrected) a name that the lookup from any level resolves to a leaf path, with canonical index texts, is that path's name from that level |
| `Schema.EnterNamesBack` | d2-stampede/src/serializer.rs:122-142 | (corrected) after a field's name and `.`, the step into the field reads exactly the rest of the path's name |
| `Schema.ArrayNamesBack` | d2-stampede/src/serializer.rs:129-132 | (corrected) an array element read from four digits is named with those four digits |
| `Schema.FixedTableNamesBack` | d2-stampede/src/serializer.rs:133-136 | (corrected) a name read through a fixed table is named back through the table |
| `Schema.VarTableNamesBack` | d2-stampede/src/serializer.rs:137-142 | (corrected) a name read through a variable-table row spelled `NNNN.` is named back with that row text |
| `Schema.VarTableNameText` | d2-stampede/src/serializer.rs:34-37 | (corrected) the name through a variable-table row is the table's name, `.`, the row in four digits, `.`, and the rest |
| `Schema.NameRoundTrip` | d2-stampede/src/serializer.rs:111-153 | resolve then name is the identity on names that resolve to a leaf path and spell their indexes in four digits (with `.` after a row), in serializers of at most 256 fields |
| `Schema.NameFlagFree` | d2-stampede/src/serializer.rs:22-45 | on paths that go below no fixed table, the name walk as written and the corrected one give the same name |
| `Schema.ScanResolvedAgrees` | d2-stampede/src/serializer.rs:116-147 | whenever the name lookup as written resolves a name, the corrected lookup resolves it to the same path: as written, a resolved lookup never went through an array |
| `Schema.EnterResolvedAgrees` | d2-stampede/src/serializer.rs:128-143 | the step after `var_name.`, when it resolves as written, resolves the same way corrected; an array step never resolves as written |
| `Schema.ScanFlagFree` | d2-stampede/src/serializer.rs:116-147 | in a schema without arrays, the name lookup as written and the corrected one give the same answer on every name |
| `Schema.EnterFlagFree` | d2-stampede/src/serializer.rs:133-142 | the step into a table over array-free serializers is the same as written and corrected |
| `Schema.NameRoundTripAsWritten` | d2-stampede/src/serializer.rs:111-153 | as written, in any schema, resolve then name is the identity on the canonical names of leaf paths that go below no fixed table |
| `Schema.RowNameAsWritten` | d2-stampede/src/serializer.rs:22-45 | as written, `m_vecRows.0002.m_x` resolves to row 2's `m_x`, and that path's name is `m_vecRows.0002.m_x` |
| `Schema.ShortIndexExample` | d2-stampede/src/serializer.rs:129-132 | an index without its leading zeros, `m_hAbilities.3`, resolves to element 3, whose name is `m_hAbilities.0003`: the canonical-index condition is needed |
| `Schema.ArrayStepAsWrittenFails` | d2-stampede/src/serializer.rs:130 | as written, the array step always fails to parse |
| `Schema.ScanArrayAsWrittenFails` | d2-stampede/src/serializer.rs:122-132 | as written, every name through an array field fails, whatever index follows |
| `Schema.ArrayNameAsWritten` | d2-stampede/src/serializer.rs:130 | as written, `m_hAbilities.0003` does not resolve |
| `Schema.ArrayNameCorrected` | d2-stampede/src/serializer.rs:31 | corrected, element 3 of `m_hAbilities` is named `m_hAbilities.0003` and that name resolves back to it |
| `Schema.TableNameAsWritten` | d2-stampede/src/serializer.rs:38 | as written, every path into a fixed table gets the table's own name |
| `Schema.TableNamesCollideAsWritten` | d2-stampede/src/serializer.rs:38 | as written, `m_cellX` and `m_cellY` inside `CBodyComponent` get the same name |
| `Schema.TableNamesCorrected` | d2-stampede/src/serializer.rs:38 | corrected, they are named `CBodyComponent.m_cellX` and `CBodyComponent.m_cellY` |
| `Schema.ArrayTypeAsWritten` | d2-stampede/src/serializer.rs:61-66 | as written, a variable array's element gets the container's type and its length the element type, the reverse of the roles the decoder walk assigns |
| `Schema.ArrayTypeExample` | d2-stampede/src/serializer.rs:61-66 | as written, element 3 of `m_hAbilities` has the container type `CUtlVector< CHandle >`; corrected, the element type `CHandle` |
| `Schema.VarTableTypeAsWritten` | d2-stampede/src/serializer.rs:67-72 | as written, the path of a variable table's row count gets the type the nested serializer gives, where the count is addressed as the table's length and has the table's type |
| `Schema.VarTableTypeExample` | d2-stampede/src/serializer.rs:67-72 | as written, the row count of `m_vecRows` has the rows' field type `float32`; corrected, the table's type |
| `Schema.TableTypeExample` | d2-stampede/src/serializer.rs:56-60 | as written, the flag of a root fixed table gets its first field's type; corrected, the table's type |
| `Serializers.AsResult` | d2-stampede/src/serializer.rs:148-152 | a resolved lookup is `Ok` with its path; a failed one is `Err` with its error |
| `Serializers.PathsOfLeaves` | d2-stampede/src/serializer.rs:155-164 | over simple fields the enumeration yields one path per field, in order, each with the field's index at the cursor level |
| `Serializers.PathsInFieldOrder` | d2-stampede/src/serializer.rs:155-164 | for any field walks that keep the cursor level and the field's slot, the enumeration leaves the cursor at its level and yields the paths field by field: the index at the cursor level is a field index, from `k` on, never decreasing |
| `Serializers.Serializer.constructor` | d2-stampede/src/serializer.rs:15-20 | a new serializer has no fields and an empty, consistent cache |
| `Serializers.Serializer.GetNameForFieldPath` | d2-stampede/src/serializer.rs:22-45 | the loop builds exactly the name the (corrected) name walk gives |
| `Serializers.Serializer.GetTypeForFieldPath` | d2-stampede/src/serializer.rs:47-78 | the loop returns the (corrected) walk's type, which is the addressed part's type |
| `Serializers.Serializer.GetDecoderForFieldPath` | d2-stampede/src/serializer.rs:80-109 | the loop returns the walk's decoder, which is the addressed part's decoder |
| `Serializers.Serializer.GetFieldPathForName` | d2-stampede/src/serializer.rs:111-153 | the answer is the uncached lookup's answer; only resolved names are added to the cache, and every cached entry stays what its name resolves to |
| `Serializers.Serializer.ResolveName` | d2-stampede/src/serializer.rs:113-149 | the labelled scan loops compute the name lookup: the path, a parse error, or no field path |
| `Serializers.Serializer.GetFieldPaths` | d2-stampede/src/serializer.rs:155-164 | the loop concatenates each field's paths in field order, threading the cursor through |
| `LegacyField.ResolveSymbol` | src/field.rs:34-39 | an absent or out-of-table symbol index gives the empty string; otherwise the symbol, which is always empty or in the table |
| `LegacyField.SendNode` | src/field.rs:40-43 | the send node is never `(root)`: that symbol reads as empty |
| `LegacyField.StepAddressed` | src/field.rs:99-152 | at depth `i + 1` the depth comparison selects exactly the role that `Schema.Addressed` gives the field at level `i`, and hands the nested serializer the next level exactly where `Addressed` continues there |
| `LegacyField.Stamps` | src/field.rs:194-199 | one copy of the cursor per listed index, each with that index at the cursor level; the cursor level is kept |
| `LegacyField.RowsKeepLevel` | src/field.rs:240-253 | the table-row loop leaves the cursor at the level it started from, if the nested enumeration does |
| `LegacyField.Field.New` | src/field.rs:33-66 | every property comes from the message through the symbol table; the model is simple and all three decoders are the default |
| `LegacyField.Field.SetModel` | src/field.rs:263-286 | the model is stored and exactly the decoders that model needs are replaced |
| `LegacyField.Field.NameForFieldPath` | src/field.rs:68-97 | a name starts with the field's own name; an array addressed at its element adds the index in four digits |
| `LegacyField.Field.TypeForFieldPath` | src/field.rs:99-122 | the type is that of the part the depth comparison selects (by `LegacyField.StepAddressed`, the part `Schema.Addressed` gives), or the nested serializer's answer at the level `Addressed` continues at |
| `LegacyField.Field.DecoderForFieldPath` | src/field.rs:124-152 | the decoder is that of the part the depth comparison selects (by `LegacyField.StepAddressed`, the part `Schema.Addressed` gives), or the nested serializer's answer at the level `Addressed` continues at |
| `LegacyField.Field.GetFieldPathForName` | src/field.rs:154-180 | the method writes the path and returns the flag the lookup specification gives |
| `LegacyField.Field.GetFieldPaths` | src/field.rs:182-261 | the method yields the paths, and leaves the cursor where, the enumeration specification says |
| `LegacyField.Field.TableRows` | src/field.rs:236-258 | the row loop computes the row enumeration: each row holding a state gets its index one level up and the nested paths |
| `LegacyField.StampOccupied` | src/field.rs:188-205 | the fixed-array loop yields one path per occupied entry, in entry order |
| `LegacyField.StampEvery` | src/field.rs:218-235 | the variable-array loop yields one path per entry, occupied or not |
| `LegacyField.ArrayElementRoundTrip` | src/field.rs:154-170 | an array element's name ends in its index, and looking that index up writes the same path back; the name ends there exactly for a fixed array |
| `LegacyField.CursorRestored` | src/field.rs:182-261 | the enumeration's down and up steps balance: the cursor returns to its level |
| `LegacyField.ArrayPaths` | src/field.rs:188-235 | a fixed array yields one path per occupied entry, a variable array one per entry, each one level down with the entry index |
| `Entities.FromCmd` | d2-stampede/src/entity.rs:18-25 | command 0 is an update, 2 a creation, 3 a deletion, and no two commands give the same event |
| `Entities.Handle` | d2-stampede/src/entity.rs:147-149 | for an index below 2^14 the low 14 bits of the handle are the index |
| `Entities.HandleSerial` | d2-stampede/src/entity.rs:147-149 | the bits above the index hold the serial's low 18 bits |
| `Entities.MaskIndex` | d2-stampede/src/entity.rs:102 | the slot of a handle is the handle modulo 2^14: below 2^14, and the handle itself exactly when the handle is below 2^14 |
| `Entities.HandleIndex` | d2-stampede/src/entity.rs:102 | an entity's handle names its index's slot |
| `Entities.Default` | d2-stampede/src/entity.rs:54-60 | a fresh table has 8192 slots, all empty |
| `Entities.Iter` | d2-stampede/src/entity.rs:88-90 | iteration gives the occupied slots' entities, in slot order |
| `Entities.GetByIndex` | d2-stampede/src/entity.rs:93-98 | an index finds an entity exactly when it is within the table and occupied; otherwise the error names the index |
| `Entities.GetByHandle` | d2-stampede/src/entity.rs:101-104 | a handle finds what its masked index finds; a failure names the handle |
| `Entities.FirstMatch` | d2-stampede/src/entity.rs:108-109 | the search finds the first matching entity, or reports that none matches |
| `Entities.GetByClassId` | d2-stampede/src/entity.rs:107-111 | a class id finds the entity of the lowest occupied slot of that class, and fails exactly when no occupied slot has it |
| `Entities.GetByClassName` | d2-stampede/src/entity.rs:114-118 | a class name finds the entity of the lowest occupied slot of that class, and fails exactly when no occupied slot has it |
| `Entities.FirstOccupiedMatch` | d2-stampede/src/entity.rs:107-118 | searching the iteration is searching the slots in order: the first match is the lowest matching slot |
| `Entities.HandleFindsEntity` | d2-stampede/src/entity.rs:101-104 | an entity stored at its index is found again by its handle |
| `Entities.PropertyByFieldPath` | d2-stampede/src/entity.rs:192-203 | a property is found exactly when the state holds a value at the path, and is that value; a miss names the class, the path and the name the name walk as written gives it |
| `Entities.PropertyByName` | d2-stampede/src/entity.rs:188-190 | the name is resolved by the corrected lookup; a name that does not resolve is a field-path error; a name that resolves gives exactly what the lookup by its path gives, so a property is found exactly when the state holds a value at that path |
| `Entities.PropertyByPathName` | d2-stampede/src/entity.rs:188-203 | (corrected) reading a property by the name of a leaf path reads it at that path |

## Left out

- `d2-stampede/src/field.rs` is not part of this model. The model reads a field's name, model, nested serializer, type and three decoders. `FieldPath` is seven `u8` slots and a cursor; the slot count is an assumption.
- `src/field_path.rs` is not part of this model. The older `FieldPath::set(i, v: i64)` is read as storing the low byte of `v`.
- `src/serializer.rs`, the older nested serializer, is not part of this model. Its lookups are function parameters of the `LegacyField.Field` members.
- `Decoders::from_field` is not part of this model. The decoder it derives is kept symbolically: the field's var type, encoder, encode flags, bit count, low and high values and field type, and whether the element decoder was asked for. Fields that agree on all of these get equal decoders in the model.
- `f32` bounds are kept as raw bits; no floating point is modelled.
- Rust's `len()` and string slicing work on bytes and panic off a character boundary. The model counts characters, which agree for the ASCII names the schema holds.
- `Rc` and `RefCell` sharing is not modelled. The path cache is a `map` field of `Serializers.Serializer`, and borrow panics are not modelled.
- `get_field_paths` returns a lazy `flat_map`. The model evaluates it eagerly, and each field's own walk is a function parameter.
- Arithmetic overflow is modelled as a release build computes it: `i - 1` and `pos ± 1` wrap, where a debug build panics. `as` casts truncate or sign-extend in both builds, and the model does the same.
- The `Display` implementations (`d2-stampede/src/entity.rs:206-245`) are left out. So are `FieldModels::as_string` (`src/field.rs:302-311`) and the plain accessors (`src/field.rs:288-290`, `d2-stampede/src/entity.rs:130-145` and `150-153`). The accessors are the datatype and class fields.
- `EntityError::PropertyNameNotFound` carries the field path itself instead of its display text. A `handle: usize` is a `bv64`, because the handle is masked bitwise.
- The `Serializers.Serializer` lookup methods require that the walk they compute does not panic. The Rust code panics there: an index out of range, or an `unwrap` of a missing serializer or generic.
- `Entities.PropertyByName` resolves the name without the cache. `Serializers.Serializer.Valid` keeps the cache equal to the uncached lookup. It resolves with the corrected lookup, as the `Serializers.Serializer` methods do. So a name through an array, such as `m_hAbilities.0003`, finds its property in the model, while the code as written returns the parse error.
- `Schema.PathError` stands for two errors. One is the `anyhow` error that the name lookup bails with (`d2-stampede/src/serializer.rs:130`, `148`). The other is the `SerializerError` that `EntityError::FieldPathNotFound` wraps (`d2-stampede/src/entity.rs:4`, `46`). The model keeps which failure occurred, not its message text.
- `Entities.PropertyByFieldPath` requires that the state has a value at the path or that the name walk as written names the path. Otherwise the Rust code panics while building the error, which it names by that walk.
- `LegacyField.Field.NameForFieldPath` states the simple and array cases in its contract. The table cases, which depend on the nested serializer's answer, are stated by its definition only.
- `LegacyField.ResolveSymbol` states the out-of-table case only for symbol tables shorter than 2^63. A negative index cast to `usize` is then past the table.
- `Serializers.PathsOfLeaves` covers fields whose walks yield the cursor, as a simple field's does. `Serializers.PathsInFieldOrder` covers any walks that keep the cursor level and the field's slot. The walks themselves are parameters.
- `FieldState::get` and `FieldState::get_value` (`d2-stampede/src/field.rs`) are not part of this model. `Base.StateAt` walks the state tree one slot per level down to the cursor, as an assumption.
- `Schema.NameRoundTrip` is stated for the corrected walks. `Schema.NameRoundTripAsWritten` states the round trip as written, in any schema, for the names that resolve as written to a path that goes below no fixed table. As written, a name through a fixed table does not come back, as the findings show. A name through an array does not resolve as written, so it has no round trip to state.

## Findings

These members use the corrected walks:

- the `Serializers.Serializer` methods;
- `Entities.PropertyByName`, whose lookup is the corrected `Schema.PathOfName`;
- the members whose row in the table above says "(corrected)". As written, an array element's name never resolves, and every leaf inside a fixed table is named after the table, so these statements hold of the corrected walks only.

`Entities.PropertyByFieldPath` names a missing property with the name walk as written, as `d2-stampede/src/entity.rs:197-201` does. Module `Schema` keeps the walks as written beside the corrected ones, selected by a flag.

| source | as written | input that shows it | evidently intended | confidence | as-written member | corrected member |
|---|---|---|---|---|---|---|
| d2-stampede/src/serializer.rs:130 | an array step parses `name[..offset]`, the name up to and including the `.` after the array's name, which never parses | `m_hAbilities.0003` in a serializer whose field 0 is the variable array `m_hAbilities` gives a parse error | parse the element index after the `.`, `name[offset..]` | high; not executed | `Schema.ArrayNameAsWritten` | `Schema.ArrayNameCorrected` |
| d2-stampede/src/serializer.rs:38 | the name walk stops at a fixed table, so every path into the table gets the table's name | paths `[0, 0]` and `[0, 1]` (cursor 1) under the table `CBodyComponent` of `m_cellX`, `m_cellY` are both named `CBodyComponent` | add `.` and continue in the table's serializer, giving `CBodyComponent.m_cellX`, the form the name lookup resolves | high; not executed | `Schema.TableNamesCollideAsWritten` | `Schema.TableNamesCorrected` |
| d2-stampede/src/serializer.rs:61-66 | the type walk compares the cursor with the level `i`, one less than the decoder walk's `i` after its increment | element 3 of the variable array `m_hAbilities` (path `[0, 3]`, cursor 1) gets the container type `CUtlVector< CHandle >`, not the element type `CHandle` | compare with `i + 1`, as the decoder walk does | medium; not executed | `Schema.ArrayTypeExample` | `Schema.TypeOfAddressed` |
| d2-stampede/src/serializer.rs:68 | the type walk compares the cursor with the level `i` to decide whether a variable table's row is entered | the row-count path `[0, 2]` (cursor 1) of the variable table `m_vecRows` gets the type `float32` of the rows' field, not the table's type | compare with `i + 1`, as the decoder walk does | medium; not executed | `Schema.VarTableTypeExample` | `Schema.TypeOfAddressed` |
| d2-stampede/src/serializer.rs:57 | a fixed table is matched by `fp.last == i - 1`, which at level 0 underflows, so it panics in a debug build and never holds in a release build | the flag path `[0]` (cursor 0) of a root fixed table `m_pEntity` gets its first field's type | `fp.last == i`, the table's own level | medium; not executed | `Schema.TableTypeExample` | `Serializers.Serializer.GetTypeForFieldPath` |
