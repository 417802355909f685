/** The older per-field layout of the schema: a `Field` built from a
    flattened-serializer message, whose model decides its decoders and how
    its own name, type, decoder and field paths are found at depth `pos`.
    The older nested `Serializer` it delegates to is not part of this model:
    each of its lookups is a parameter. A panic is `None`. */
module LegacyField {
  import opened Base
  import opened Decimal
  import Schema

  /** What `Field::new` reads of a `ProtoFlattenedSerializerField_t`: symbol
      indices (absent when unset) and raw properties. */
  datatype ProtoField = ProtoField(
    varNameSym: Option<i32>,
    varTypeSym: Option<i32>,
    sendNodeSym: Option<i32>,
    fieldSerializerNameSym: Option<i32>,
    fieldSerializerVersion: Option<i32>,
    varEncoderSym: Option<i32>,
    encodeFlags: Option<i32>,
    bitCount: Option<i32>,
    lowValue: Option<F32>,
    highValue: Option<F32>)

  /** What `Field::new` reads of a `CSVCMsg_FlattenedSerializer`: its symbol table. */
  datatype FlattenedSerializer = FlattenedSerializer(symbols: seq<string>)

  /** A nested serializer of the older layout, by name. */
  datatype NestedSerializer = NestedSerializer(name: string)

  /** The nested serializer's lookups, which are not part of this model. */
  type NestedName = (NestedSerializer, FieldPath, i32) -> seq<string>
  type NestedType = (NestedSerializer, FieldPath, i32) -> FieldType
  type NestedDecoder = (NestedSerializer, FieldPath, i32) -> Decoder
  type NestedPathForName = (NestedSerializer, FieldPath, string) -> (FieldPath, bool)
  /** The paths the nested serializer yields for a state, and the cursor it leaves. */
  type NestedPaths = (NestedSerializer, FieldPath, FieldState) -> (seq<FieldPath>, FieldPath)

  // ---------------------------------------------------------------------
  // Building a field

  /** The `resolve` closure of `Field::new`: an absent index, or one that is
      past the symbol table once cast to `usize`, gives the empty string. */
  function ResolveSymbol(symbols: seq<string>, p: Option<i32>): (r: string)
    ensures p.None? ==> r == ""
    ensures p.Some? && 0 <= p.value < |symbols| ==> r == symbols[p.value]
    ensures p.Some? && (p.value < 0 || p.value >= |symbols|) && |symbols| < 0x8000_0000_0000_0000 ==> r == ""
    ensures r == "" || r in symbols
  {
    match p
    case None => ""
    case Some(v) =>
      var idx := AsUsize(v);
      if idx < |symbols| then symbols[idx] else ""
  }

  /** The send node of a field: the resolved symbol, with `(root)` read as
      the empty string. */
  function SendNode(symbols: seq<string>, p: Option<i32>): (r: string)
    ensures r != "(root)"
    ensures ResolveSymbol(symbols, p) != "(root)" ==> r == ResolveSymbol(symbols, p)
    ensures ResolveSymbol(symbols, p) == "(root)" ==> r == ""
  {
    var node := ResolveSymbol(symbols, p);
    if node == "(root)" then "" else node
  }

  // ---------------------------------------------------------------------
  // What a path addresses at depth `pos`

  /** Where the type and decoder lookups end for a field at depth `pos`:
      at one of the field's own roles, or in its nested serializer at the
      given depth. The comparisons are those of the Rust code, with `fp.last`
      cast to `i32` and `pos ± 1` wrapping as `i32` arithmetic does in a
      release build. */
  datatype Step = Here(role: Schema.Role) | Nested(pos: i32)

  function StepAt(model: FieldModel, last: nat, pos: i32): Step
  {
    match model
    case Simple | FixedArray => Here(Schema.Whole)
    case FixedTable => if AsI32(last) == AsI32(pos - 1) then Here(Schema.Presence) else Nested(pos)
    case VariableArray => if AsI32(last) == pos then Here(Schema.Element) else Here(Schema.Length)
    case VariableTable => if AsI32(last) >= AsI32(pos + 1) then Nested(AsI32(pos + 1)) else Here(Schema.Length)
  }

  /** A serializer at depth `pos` hands its field at `path[pos]` the depth
      `pos + 1`. At that depth the step agrees with the role `Addressed`
      gives at the field's level `i`: a role here exactly where `Addressed`
      stops at this field, and a nested depth exactly where it goes on into
      the nested serializer, at that serializer's level. */
  lemma StepAddressed(fields: seq<Schema.Field>, fp: FieldPath, i: nat)
    requires i <= fp.last <= PathLen && i < PathLen && fp.path[i] as int < |fields|
    ensures var f := fields[fp.path[i]];
      match StepAt(f.model, fp.last, (i + 1) as i32)
      case Here(role) => Schema.Addressed(fields, fp, i) == Some(Schema.Target(f, role))
      case Nested(p) =>
        && p as int == (if f.model == FixedTable then i + 1 else i + 2)
        && (f.model == FixedTable || f.model == VariableTable)
        && Schema.Addressed(fields, fp, i) ==
             if f.serializer.Some? then Schema.Addressed(f.serializer.value.fields, fp, p as int) else None
  {
  }

  // ---------------------------------------------------------------------
  // Field-path enumeration helpers

  /** Every slot index below `n`, in ascending order. */
  function AllSlots(n: nat): (r: seq<nat>)
    ensures |r| == n && forall i :: 0 <= i < n ==> r[i] == i
  {
    seq(n, i => i)
  }

  /** Writing each index of `idxs` in turn at the cursor's level and taking
      a copy after each write: the copies and the cursor left behind. */
  function Stamps(fp: FieldPath, idxs: seq<nat>): (r: Option<(seq<FieldPath>, FieldPath)>)
    ensures r.Some? <==> idxs == [] || fp.last < PathLen
    ensures r.Some? ==> r.value.1.last == fp.last
    ensures r.Some? ==> |r.value.0| == |idxs|
    ensures r.Some? ==> forall j :: 0 <= j < |idxs| ==> r.value.0[j] == Set(fp, fp.last, LowByte(idxs[j]))
    decreases |idxs|
  {
    if idxs == [] then Some(([], fp))
    else
      match Stamps(fp, idxs[..|idxs| - 1])
      case None => None
      case Some(done) =>
        if done.1.last >= PathLen then None
        else
          var next := Set(done.1, done.1.last, LowByte(idxs[|idxs| - 1]));
          assert idxs[..|idxs| - 1] == [] ==> done.1 == fp;
          assert idxs[..|idxs| - 1] != [] ==> done.1 == Set(fp, fp.last, LowByte(idxs[|idxs| - 2]));
          Some((done.0 + [next], next))
  }

  /** The rows of a variable table, the first `n` of them: each row that
      holds a nested state gets its index written one level above the
      cursor, and the nested serializer's paths for that state. */
  function Rows(ser: Option<NestedSerializer>, s: seq<Option<States>>, n: nat, start: FieldPath, nested: NestedPaths): Option<(seq<FieldPath>, FieldPath)>
    requires n <= |s|
    decreases n
  {
    if n == 0 then Some(([], start))
    else
      match Rows(ser, s, n - 1, start, nested)
      case None => None
      case Some(done) =>
        match s[n - 1]
        case Some(Sub(row)) =>
          var cur := done.1;
          if cur.last < 1 || cur.last - 1 >= PathLen || ser.None? then None
          else
            var got := nested(ser.value, Set(cur, cur.last - 1, LowByte(n - 1)), row);
            Some((done.0 + got.0, got.1))
        case _ => Some(done)
  }

  /** The nested serializer's enumeration leaves the cursor's level as it found it. */
  ghost predicate KeepsLevel(nested: NestedPaths)
  {
    forall ser, fp, st :: nested(ser, fp, st).1.last == fp.last
  }

  lemma {:induction false} RowsKeepLevel(ser: Option<NestedSerializer>, s: seq<Option<States>>, n: nat, start: FieldPath, nested: NestedPaths)
    requires n <= |s| && KeepsLevel(nested)
    ensures Rows(ser, s, n, start, nested).Some? ==> Rows(ser, s, n, start, nested).value.1.last == start.last
    decreases n
  {
    if n > 0 {
      RowsKeepLevel(ser, s, n - 1, start, nested);
      var before := Rows(ser, s, n - 1, start, nested);
      if before.Some? && s[n - 1].Some? && s[n - 1].value.Sub? {
        var cur := before.value.1;
        if cur.last >= 1 && cur.last - 1 < PathLen && ser.Some? {
          var at := Set(cur, cur.last - 1, LowByte(n - 1));
          assert nested(ser.value, at, s[n - 1].value.sub).1.last == at.last;
        }
      }
    }
  }

  class Field {
    var parent: Option<string>
    var varName: string
    var varType: string
    var sendNode: string
    var serializerName: string
    var serializerVer: i32
    var encoder: string
    var encoderFlags: Option<i32>
    var bitCount: Option<i32>
    var lowValue: Option<F32>
    var highValue: Option<F32>
    var fieldType: Option<FieldType>
    var serializer: Option<NestedSerializer>
    var value: Option<i32>
    var model: FieldModel
    var decoder: Option<Decoder>
    var baseDecoder: Option<Decoder>
    var childDecoder: Option<Decoder>

    /** `Field::new`: names resolved through the symbol table, a `(root)`
        send node made empty, no parent, type, serializer or value, the
        simple model and the default decoder in all three places. */
    constructor New(ser: FlattenedSerializer, f: ProtoField)
      ensures parent == None && fieldType == None && serializer == None && value == None
      ensures varName == ResolveSymbol(ser.symbols, f.varNameSym)
      ensures varType == ResolveSymbol(ser.symbols, f.varTypeSym)
      ensures sendNode == SendNode(ser.symbols, f.sendNodeSym)
      ensures serializerName == ResolveSymbol(ser.symbols, f.fieldSerializerNameSym)
      ensures serializerVer == (if f.fieldSerializerVersion.Some? then f.fieldSerializerVersion.value else 0)
      ensures encoder == ResolveSymbol(ser.symbols, f.varEncoderSym)
      ensures encoderFlags == f.encodeFlags && bitCount == f.bitCount
      ensures lowValue == f.lowValue && highValue == f.highValue
      ensures model == Simple
      ensures decoder == Some(Default) && baseDecoder == Some(Default) && childDecoder == Some(Default)
    {
      parent := None;
      varName := ResolveSymbol(ser.symbols, f.varNameSym);
      varType := ResolveSymbol(ser.symbols, f.varTypeSym);
      sendNode := SendNode(ser.symbols, f.sendNodeSym);
      serializerName := ResolveSymbol(ser.symbols, f.fieldSerializerNameSym);
      serializerVer := if f.fieldSerializerVersion.Some? then f.fieldSerializerVersion.value else 0;
      encoder := ResolveSymbol(ser.symbols, f.varEncoderSym);
      encoderFlags := f.encodeFlags;
      bitCount := f.bitCount;
      lowValue := f.lowValue;
      highValue := f.highValue;
      fieldType := None;
      serializer := None;
      value := None;
      model := Simple;
      decoder := Some(Default);
      baseDecoder := Some(Default);
      childDecoder := Some(Default);
    }

    /** `set_model`: store the model and install the decoders it needs; a
        variable array needs a type with an element type. */
    method SetModel(m: FieldModel)
      requires m == VariableArray ==> fieldType.Some? && fieldType.value.generic.Some?
      modifies this`model, this`decoder, this`baseDecoder, this`childDecoder
      ensures model == m
      ensures decoder == if m in {Simple, FixedArray} then Some(FromField(varType, encoder, encoderFlags, bitCount, lowValue, highValue, fieldType, false)) else old(decoder)
      ensures baseDecoder ==
        match m
        case FixedTable => Some(Boolean)
        case VariableArray | VariableTable => Some(Unsigned)
        case _ => old(baseDecoder)
      ensures childDecoder == if m == VariableArray then Some(FromField(varType, encoder, encoderFlags, bitCount, lowValue, highValue, fieldType, true)) else old(childDecoder)
    {
      model := m;
      match model {
        case FixedArray =>
          decoder := Some(FromField(varType, encoder, encoderFlags, bitCount, lowValue, highValue, fieldType, false));
        case FixedTable =>
          baseDecoder := Some(Boolean);
        case VariableArray =>
          baseDecoder := Some(Unsigned);
          childDecoder := Some(FromField(varType, encoder, encoderFlags, bitCount, lowValue, highValue, fieldType, true));
        case VariableTable =>
          baseDecoder := Some(Unsigned);
        case Simple =>
          decoder := Some(FromField(varType, encoder, encoderFlags, bitCount, lowValue, highValue, fieldType, false));
      }
    }

    /** The decoder installed for a role (`None` if it is unset). */
    function RoleDecoder(role: Schema.Role): Option<Decoder>
      reads this
    {
      match role
      case Whole => decoder
      case Presence | Length => baseDecoder
      case Element => childDecoder
    }

    /** The type of a role: an element has the element type. */
    function RoleType(role: Schema.Role): Option<FieldType>
      reads this
    {
      match role
      case Element => if fieldType.Some? then fieldType.value.generic else None
      case _ => fieldType
    }

    /** `get_name_for_field_path`: the field's `var_name`, then for an array
        addressed at its element the element index, for a fixed table the
        nested names, for a variable table the row index and the nested
        names. */
    function NameForFieldPath(fp: FieldPath, pos: i32, nested: NestedName): (r: Option<seq<string>>)
      reads this
      ensures r.Some? ==> |r.value| >= 1 && r.value[0] == varName
      ensures model == Simple ==> r == Some([varName])
      ensures model in {FixedArray, VariableArray} && fp.last < PathLen ==>
        r == Some(if fp.last == AsUsize(pos) then [varName] + [Pad4(fp.path[fp.last])] else [varName])
    {
      var x := [varName];
      match model
      case Simple => Some(x)
      case FixedArray | VariableArray =>
        if fp.last == AsUsize(pos) then
          if AsUsize(pos) < PathLen then Some(x + [Pad4(fp.path[AsUsize(pos)])]) else None
        else Some(x)
      case FixedTable =>
        if fp.last >= AsUsize(pos) then
          if serializer.Some? then Some(x + nested(serializer.value, fp, pos)) else None
        else Some(x)
      case VariableTable =>
        if fp.last != AsUsize(AsI32(pos - 1)) then
          if AsUsize(pos) >= PathLen then None
          else
            var y := x + [Pad4(fp.path[AsUsize(pos)])];
            if fp.last != AsUsize(pos) then
              if serializer.Some? then Some(y + nested(serializer.value, fp, AsI32(pos + 1))) else None
            else Some(y)
        else Some(x)
    }

    /** `get_type_for_field_path`: the type of the role the path addresses
        at depth `pos`, or the nested serializer's answer. */
    function TypeForFieldPath(fp: FieldPath, pos: i32, nested: NestedType): (r: Option<FieldType>)
      reads this
      ensures r ==
        match StepAt(model, fp.last, pos)
        case Here(role) => RoleType(role)
        case Nested(p) => if serializer.Some? then Some(nested(serializer.value, fp, p)) else None
    {
      match model
      case Simple => fieldType
      case FixedArray => fieldType
      case FixedTable =>
        if AsI32(fp.last) != AsI32(pos - 1) then
          if serializer.Some? then Some(nested(serializer.value, fp, pos)) else None
        else fieldType
      case VariableArray =>
        if AsI32(fp.last) == pos then
          if fieldType.Some? then fieldType.value.generic else None
        else fieldType
      case VariableTable =>
        if AsI32(fp.last) >= AsI32(pos + 1) then
          if serializer.Some? then Some(nested(serializer.value, fp, AsI32(pos + 1))) else None
        else fieldType
    }

    /** `get_decoder_for_field_path`: the decoder of the role the path
        addresses at depth `pos`, or the nested serializer's answer. */
    function DecoderForFieldPath(fp: FieldPath, pos: i32, nested: NestedDecoder): (r: Option<Decoder>)
      reads this
      ensures r ==
        match StepAt(model, fp.last, pos)
        case Here(role) => RoleDecoder(role)
        case Nested(p) => if serializer.Some? then Some(nested(serializer.value, fp, p)) else None
    {
      match model
      case Simple => decoder
      case FixedArray => decoder
      case FixedTable =>
        if AsI32(fp.last) == AsI32(pos - 1) then baseDecoder
        else if serializer.Some? then Some(nested(serializer.value, fp, pos)) else None
      case VariableArray =>
        if AsI32(fp.last) == pos then childDecoder else baseDecoder
      case VariableTable =>
        if AsI32(fp.last) >= AsI32(pos + 1) then
          if serializer.Some? then Some(nested(serializer.value, fp, AsI32(pos + 1))) else None
        else baseDecoder
    }

    /** `get_field_path_for_name` on the name's rest at this field: the
        path it writes and whether the name ended here. */
    function PathForName(fp: FieldPath, name: string, nested: NestedPathForName): Option<(FieldPath, bool)>
      reads this
    {
      match model
      case Simple => None
      case FixedArray | VariableArray =>
        if |name| != 4 || fp.last >= PathLen then None
        else
          (match ParseI64(name)
           case None => None
           case Some(v) => Some((Set(fp, fp.last, LowByte(v)), model == FixedArray)))
      case FixedTable =>
        if serializer.Some? then Some(nested(serializer.value, fp, name)) else None
      case VariableTable =>
        if |name| != 6 || fp.last >= PathLen then None
        else
          match ParseI64(name[..4])
          case None => None
          case Some(v) =>
            if serializer.None? then None
            else Some(nested(serializer.value, Down(Set(fp, fp.last, LowByte(v))), name[5..]))
    }

    /** `get_field_path_for_name`: writes the element or row index the name
        gives into `fp`; `found` is true for a fixed array. */
    method GetFieldPathForName(fp: FieldPath, name: string, nested: NestedPathForName) returns (written: FieldPath, found: bool)
      requires PathForName(fp, name, nested).Some?
      ensures PathForName(fp, name, nested) == Some((written, found))
    {
      match model {
        case FixedArray =>
          var v := ParseI64(name).value;
          written := Set(fp, fp.last, LowByte(v));
          return written, true;
        case FixedTable =>
          var got := nested(serializer.value, fp, name);
          return got.0, got.1;
        case VariableArray =>
          var v := ParseI64(name).value;
          written := Set(fp, fp.last, LowByte(v));
        case VariableTable =>
          var v := ParseI64(name[..4]).value;
          written := Down(Set(fp, fp.last, LowByte(v)));
          var got := nested(serializer.value, written, name[5..]);
          return got.0, got.1;
      }
      found := false;
    }

    /** `get_field_paths`, evaluated as a value: the paths of the field's
        occupied entries under `fp` and the cursor left behind. */
    function FieldPathsOf(fp: FieldPath, st: FieldState, nested: NestedPaths): Option<(seq<FieldPath>, FieldPath)>
      reads this
    {
      match model
      case Simple => Some(([fp], fp))
      case FixedArray =>
        (match GetState(st, fp)
         case Some(Sub(s)) =>
           (match Stamps(Down(fp), Occupied(s.state))
            case None => None
            case Some(done) => Some((done.0, Up(done.1, 1))))
         case _ => Some(([], fp)))
      case VariableArray =>
        (match GetState(st, fp)
         case Some(Sub(s)) =>
           (match Stamps(Down(fp), AllSlots(|s.state|))
            case None => None
            case Some(done) => Some((done.0, Up(done.1, 1))))
         case _ => Some(([], fp)))
      case FixedTable =>
        (match GetState(st, fp)
         case Some(Sub(s)) =>
           if serializer.None? then None
           else
             var got := nested(serializer.value, Down(fp), s);
             if got.1.last < 1 then None else Some((got.0, Up(got.1, 1)))
         case _ => Some(([], fp)))
      case VariableTable =>
        (match GetState(st, fp)
         case Some(Sub(s)) =>
           (match Rows(serializer, s.state, |s.state|, Down(Down(fp)), nested)
            case None => None
            case Some(done) => if done.1.last < 2 then None else Some((done.0, Up(done.1, 2))))
         case _ => Some(([], fp)))
    }

    /** `get_field_paths`: the entries of the state at `fp`, one level
        down (two for a variable table), and the cursor stepped back up. */
    method GetFieldPaths(fp: FieldPath, st: FieldState, nested: NestedPaths) returns (paths: seq<FieldPath>, cursor: FieldPath)
      requires FieldPathsOf(fp, st, nested).Some?
      ensures FieldPathsOf(fp, st, nested) == Some((paths, cursor))
    {
      paths, cursor := [], fp;
      var x := GetState(st, fp);
      match model {
        case Simple =>
          paths := [fp];
        case FixedArray =>
          if x.Some? && x.value.Sub? {
            paths, cursor := StampOccupied(Down(cursor), x.value.sub.state);
            cursor := Up(cursor, 1);
          }
        case VariableArray =>
          if x.Some? && x.value.Sub? {
            paths, cursor := StampEvery(Down(cursor), x.value.sub.state);
            cursor := Up(cursor, 1);
          }
        case FixedTable =>
          if x.Some? && x.value.Sub? {
            cursor := Down(cursor);
            var got := nested(serializer.value, cursor, x.value.sub);
            paths := got.0;
            cursor := Up(got.1, 1);
          }
        case VariableTable =>
          if x.Some? && x.value.Sub? {
            paths, cursor := TableRows(Down(Down(cursor)), x.value.sub.state, nested);
            cursor := Up(cursor, 2);
          }
      }
    }

    /** The loop of a variable table: each row holding a nested state gets
        its index written one level above the cursor and contributes the
        nested serializer's paths for that state. */
    method TableRows(inner: FieldPath, s: seq<Option<States>>, nested: NestedPaths) returns (paths: seq<FieldPath>, cursor: FieldPath)
      requires Rows(serializer, s, |s|, inner, nested).Some?
      ensures Rows(serializer, s, |s|, inner, nested) == Some((paths, cursor))
    {
      paths, cursor := [], inner;
      for i := 0 to |s|
        invariant Rows(serializer, s, i, inner, nested) == Some((paths, cursor))
      {
        RowsDefined(serializer, s, i + 1, |s|, inner, nested);
        if s[i].Some? && s[i].value.Sub? {
          cursor := Set(cursor, cursor.last - 1, LowByte(i));
          var got := nested(serializer.value, cursor, s[i].value.sub);
          paths := paths + got.0;
          cursor := got.1;
        }
      }
    }
  }

  /** The loop of a fixed array: a copy of the cursor for each occupied
      entry, with the entry's index written at the cursor's level. */
  method StampOccupied(inner: FieldPath, s: seq<Option<States>>) returns (paths: seq<FieldPath>, cursor: FieldPath)
    requires Stamps(inner, Occupied(s)).Some?
    ensures Stamps(inner, Occupied(s)) == Some((paths, cursor))
  {
    paths, cursor := [], inner;
    OccupiedExactly(s);
    assert s[..0] == [];
    for i := 0 to |s|
      invariant Stamps(inner, Occupied(s[..i])) == Some((paths, cursor))
    {
      OccupiedStep(s, i);
      if s[i].Some? {
        assert i in Occupied(s);
        StampsAppend(inner, Occupied(s[..i]), i);
        cursor := Set(cursor, cursor.last, LowByte(i));
        paths := paths + [cursor];
      }
    }
    assert s[..|s|] == s;
  }

  /** Writing one more index after a run of writes. */
  lemma StampsAppend(fp: FieldPath, idxs: seq<nat>, i: nat)
    requires fp.last < PathLen && Stamps(fp, idxs).Some?
    ensures Stamps(fp, idxs + [i]) ==
      var done := Stamps(fp, idxs).value;
      Some((done.0 + [Set(done.1, done.1.last, LowByte(i))], Set(done.1, done.1.last, LowByte(i))))
  {
    assert (idxs + [i])[..|idxs|] == idxs;
  }

  /** The loop of a variable array: a copy of the cursor for every entry,
      occupied or not, with the entry's index written at the cursor's level. */
  method StampEvery(inner: FieldPath, s: seq<Option<States>>) returns (paths: seq<FieldPath>, cursor: FieldPath)
    requires Stamps(inner, AllSlots(|s|)).Some?
    ensures Stamps(inner, AllSlots(|s|)) == Some((paths, cursor))
  {
    paths, cursor := [], inner;
    for i := 0 to |s|
      invariant Stamps(inner, AllSlots(i)) == Some((paths, cursor))
    {
      assert AllSlots(i + 1)[..i] == AllSlots(i);
      cursor := Set(cursor, cursor.last, LowByte(i));
      paths := paths + [cursor];
    }
  }

  /** A table enumeration that does not panic over all rows does not panic
      over the first `m` of them either. */
  lemma {:induction false} RowsDefined(ser: Option<NestedSerializer>, s: seq<Option<States>>, m: nat, n: nat, start: FieldPath, nested: NestedPaths)
    requires m <= n <= |s| && Rows(ser, s, n, start, nested).Some?
    ensures Rows(ser, s, m, start, nested).Some?
    decreases n - m
  {
    if m < n {
      RowsDefined(ser, s, m + 1, n, start, nested);
    }
  }

  // ---------------------------------------------------------------------
  // Properties

  /** The name of an array field addressed at its element ends in the
      element index, and resolving that index writes it back: the path is
      unchanged, and the name has ended exactly when the array is fixed. */
  lemma ArrayElementRoundTrip(f: Field, fp: FieldPath, pos: i32, names: NestedName, paths: NestedPathForName)
    requires f.model in {FixedArray, VariableArray}
    requires fp.last < PathLen && AsUsize(pos) == fp.last
    ensures f.NameForFieldPath(fp, pos, names) == Some([f.varName, Pad4(fp.path[fp.last])])
    ensures f.PathForName(fp, Pad4(fp.path[fp.last]), paths) == Some((fp, f.model == FixedArray))
  {
    var n := fp.path[fp.last];
    ParsePad4(n);
    assert Set(fp, fp.last, LowByte(n)) == fp;
    assert [f.varName] + [Pad4(n)] == [f.varName, Pad4(n)];
  }

  /** The enumeration puts the cursor back at the level it started from:
      the down and up steps balance, given that the nested serializer's
      enumeration does the same. */
  lemma CursorRestored(f: Field, fp: FieldPath, st: FieldState, nested: NestedPaths)
    requires KeepsLevel(nested)
    requires f.FieldPathsOf(fp, st, nested).Some?
    ensures f.FieldPathsOf(fp, st, nested).value.1.last == fp.last
  {
    if f.model == VariableTable {
      var x := GetState(st, fp);
      if x.Some? && x.value.Sub? {
        var s := x.value.sub.state;
        RowsKeepLevel(f.serializer, s, |s|, Down(Down(fp)), nested);
      }
    }
  }

  /** A fixed array yields one path per occupied entry, in ascending entry
      order; a variable array yields one path per entry, occupied or not.
      Each is the cursor one level down with the entry's index written. */
  lemma ArrayPaths(f: Field, fp: FieldPath, st: FieldState, nested: NestedPaths, s: FieldState)
    requires f.model in {FixedArray, VariableArray}
    requires GetState(st, fp) == Some(Sub(s))
    requires f.FieldPathsOf(fp, st, nested).Some?
    ensures var ps := f.FieldPathsOf(fp, st, nested).value.0;
      var idxs := if f.model == FixedArray then Occupied(s.state) else AllSlots(|s.state|);
      |ps| == |idxs| &&
      forall j :: 0 <= j < |ps| ==> ps[j] == Set(Down(fp), fp.last + 1, LowByte(idxs[j]))
  {
  }
}
