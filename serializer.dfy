/** `Serializer`: the field list of one entity class, with its lookups
    between field paths, names, types and decoders, and a memo of resolved
    names. Each lookup is the Rust loop that steps its cursors through the
    nested serializers; each is proved to compute the schema walk of the
    same name, whose properties are proved in module Schema. */
module Serializers {
  import opened Base
  import opened Decimal
  import opened Schema

  /** The result a caller of `get_field_path_for_name` sees for a lookup
      that does not panic. */
  function AsResult(l: NameLookup): (r: Result<FieldPath, PathError>)
    requires !l.Panics?
    ensures r.Ok? <==> l.Resolved?
    ensures r.Ok? ==> r.value == l.fp
    ensures r.Err? ==> r.error == l.error
  {
    match l
    case Resolved(fp) => Ok(fp)
    case Failed(e) => Err(e)
  }

  /** What the nested `Field::get_field_paths` (not part of this model) does
      for one field: given the cursor with the field's index written at
      `last` and the state, the paths it yields and the cursor it leaves. */
  type FieldWalk = (Field, FieldPath, FieldState) -> (seq<FieldPath>, FieldPath)

  /** `get_field_paths` from field `k` on, evaluated eagerly: field `k`'s
      index goes into slot `last` of the cursor, the field's own walk runs on
      that cursor, and the next field continues from the cursor it left.
      `None` where writing slot `last` would index past the path. */
  function PathsFrom(fields: seq<Field>, k: nat, fp: FieldPath, st: FieldState, walk: FieldWalk): Option<(seq<FieldPath>, FieldPath)>
    requires k <= |fields|
    decreases |fields| - k
  {
    if k == |fields| then Some(([], fp))
    else if fp.last >= PathLen then None
    else
      var step := walk(fields[k], Set(fp, fp.last, LowByte(k)), st);
      match PathsFrom(fields, k + 1, step.1, st, walk)
      case None => None
      case Some(tail) => Some((step.0 + tail.0, tail.1))
  }

  /** A field walk that yields just the cursor it is given, as the walk of a
      simple field does, and leaves the cursor as it found it. */
  ghost predicate YieldsCursor(walk: FieldWalk)
  {
    forall f, fp, st :: walk(f, fp, st) == ([fp], fp)
  }

  /** Over fields whose walks yield the cursor, the enumeration gives one
      path per field, in field order, each with the field's index (as a
      byte) at the cursor's level and every other slot unchanged. */
  lemma {:induction false} PathsOfLeaves(fields: seq<Field>, k: nat, fp: FieldPath, st: FieldState, walk: FieldWalk)
    requires k <= |fields| && fp.last < PathLen && YieldsCursor(walk)
    ensures PathsFrom(fields, k, fp, st, walk).Some?
    ensures var ps := PathsFrom(fields, k, fp, st, walk).value.0;
      |ps| == |fields| - k &&
      forall j :: 0 <= j < |ps| ==> ps[j] == Set(fp, fp.last, LowByte(k + j))
    decreases |fields| - k
  {
    if k < |fields| {
      var next := Set(fp, fp.last, LowByte(k));
      PathsOfLeaves(fields, k + 1, next, st, walk);
      var ps := PathsFrom(fields, k, fp, st, walk).value.0;
      var tail := PathsFrom(fields, k + 1, next, st, walk).value.0;
      assert ps == [next] + tail;
      forall j | 0 <= j < |ps| ensures ps[j] == Set(fp, fp.last, LowByte(k + j)) {
        if j > 0 {
          assert ps[j] == tail[j - 1] == Set(next, fp.last, LowByte(k + j));
        }
      }
    }
  }

  /** A field walk that leaves the cursor at the level it was given and
      yields only paths that keep the field's index at that level, as the
      walks of every field model do: they write deeper slots only. */
  ghost predicate KeepsOwnSlot(walk: FieldWalk)
  {
    forall f: Field, fp: FieldPath, st: FieldState :: fp.last < PathLen ==>
      && walk(f, fp, st).1.last == fp.last
      && forall j :: 0 <= j < |walk(f, fp, st).0| ==> walk(f, fp, st).0[j].path[fp.last] == fp.path[fp.last]
  }

  /** With such walks, and at most 256 fields so that an index is its own
      byte, the enumeration from field `k` never fails, leaves the cursor at
      its level, and yields the paths field by field: the index at the
      cursor's level runs from `k` upwards and never decreases. */
  lemma {:induction false} PathsInFieldOrder(fields: seq<Field>, k: nat, fp: FieldPath, st: FieldState, walk: FieldWalk)
    requires k <= |fields| <= 0x100 && fp.last < PathLen && KeepsOwnSlot(walk)
    ensures PathsFrom(fields, k, fp, st, walk).Some?
    ensures var r := PathsFrom(fields, k, fp, st, walk).value;
      && r.1.last == fp.last
      && (forall j :: 0 <= j < |r.0| ==> k <= r.0[j].path[fp.last] as int < |fields|)
      && (forall a, b :: 0 <= a <= b < |r.0| ==> r.0[a].path[fp.last] <= r.0[b].path[fp.last])
    decreases |fields| - k
  {
    if k < |fields| {
      var L := fp.last;
      var cur := Set(fp, L, LowByte(k));
      var step := walk(fields[k], cur, st);
      assert step.1.last == L;
      PathsInFieldOrder(fields, k + 1, step.1, st, walk);
      var tail := PathsFrom(fields, k + 1, step.1, st, walk).value.0;
      var ps := PathsFrom(fields, k, fp, st, walk).value.0;
      assert ps == step.0 + tail;
      forall j | 0 <= j < |ps|
        ensures (j < |step.0| ==> ps[j].path[L] as int == k)
        ensures (j >= |step.0| ==> k < ps[j].path[L] as int < |fields|)
      {
        if j < |step.0| {
          assert ps[j] == step.0[j];
        } else {
          assert ps[j] == tail[j - |step.0|];
        }
      }
    }
  }

  /** Appending a name segment and then the rest of the name. */
  lemma Extend(before: string, seg: string, fmt: string, rest: string, tail: string)
    requires tail == seg + fmt + rest
    ensures before + tail == before + seg + fmt + rest
  {
    assert tail == seg + fmt + rest;
    assert before + seg + fmt + rest == before + (seg + fmt + rest);
  }

  class Serializer {
    /** The class's fields, in declaration order. */
    var fields: seq<Field>
    /** `fp_cache`: names already resolved, with their field paths. */
    var fpCache: map<string, FieldPath>

    /** Every cached path is the one the name resolves to in `fields`. */
    ghost predicate Valid()
      reads this
    {
      forall n :: n in fpCache ==> PathOfName(fields, n, true) == Resolved(fpCache[n])
    }

    /** `Serializer::new`: no fields, nothing cached. */
    constructor ()
      ensures Valid()
      ensures fields == [] && fpCache == map[]
    {
      fields := [];
      fpCache := map[];
    }

    /** `get_name_for_field_path`: the dotted name of the field a path
        addresses. A fixed table that the path goes below continues into its
        nested serializer after a `.`. */
    method GetNameForFieldPath(fp: FieldPath) returns (name: string)
      requires NameFrom(fields, fp, 0, true).Some?
      ensures NameFrom(fields, fp, 0, true) == Some(name)
    {
      ghost var whole := NameFrom(fields, fp, 0, true).value;
      var i: nat := 0;
      var current := fields;
      name := "";
      assert name + NameFrom(current, fp, i, true).value == whole;
      while true
        invariant NameFrom(current, fp, i, true).Some?
        invariant whole == name + NameFrom(current, fp, i, true).value
        decreases PathLen - i
      {
        var f := current[fp.path[i]];
        ghost var before, tail := name, NameFrom(current, fp, i, true).value;
        name := name + f.varName;
        var fmt: string;
        match f.model {
          case FixedArray | VariableArray =>
            fmt := "." + Pad4(fp.path[i + 1]);
            name := name + fmt;
            assert tail == f.varName + fmt;
            Extend(before, f.varName, fmt, "", tail);
            assert name + "" == name;
            return;
          case VariableTable =>
            i := i + 1;
            fmt := "." + Pad4(fp.path[i]) + ".";
            name := name + fmt;
          case FixedTable =>
            if i >= fp.last {
              return;
            }
            fmt := ".";
            name := name + fmt;
          case Simple =>
            return;
        }
        i := i + 1;
        current := f.serializer.value.fields;
        Extend(before, f.varName, fmt, NameFrom(current, fp, i, true).value, tail);
      }
    }

    /** `get_type_for_field_path`, with each comparison made against the
        level below the current field, as the decoder lookup makes it. */
    method GetTypeForFieldPath(fp: FieldPath) returns (t: FieldType)
      requires TypeFrom(fields, fp, 0, true).Some?
      ensures TypeFrom(fields, fp, 0, true) == Some(t)
    {
      var i: nat := 0;
      var current := fields;
      while true
        invariant TypeFrom(current, fp, i, true) == TypeFrom(fields, fp, 0, true)
        decreases PathLen - i
      {
        var f := current[fp.path[i]];
        match f.model {
          case Simple | FixedArray =>
            return f.fieldType;
          case FixedTable =>
            if fp.last == i {
              return f.fieldType;
            }
          case VariableArray =>
            if fp.last == i + 1 {
              return f.fieldType.generic.value;
            }
            return f.fieldType;
          case VariableTable =>
            if i + 1 >= fp.last {
              return f.fieldType;
            }
            i := i + 1;
        }
        i := i + 1;
        current := f.serializer.value.fields;
      }
    }

    /** `get_decoder_for_field_path`. */
    method GetDecoderForFieldPath(fp: FieldPath) returns (d: Decoder)
      requires DecoderFrom(fields, fp, 0).Some?
      ensures DecoderFrom(fields, fp, 0) == Some(d)
    {
      var i: nat := 0;
      var current := fields;
      while true
        invariant DecoderFrom(current, fp, i) == DecoderFrom(fields, fp, 0)
        decreases PathLen - i
      {
        var f := current[fp.path[i]];
        i := i + 1;
        match f.model {
          case Simple | FixedArray =>
            return f.decoder;
          case FixedTable =>
            if fp.last + 1 == i {
              return f.baseDecoder;
            }
          case VariableArray =>
            if fp.last == i {
              return f.childDecoder;
            }
            return f.baseDecoder;
          case VariableTable =>
            if i >= fp.last {
              return f.baseDecoder;
            }
            i := i + 1;
        }
        current := f.serializer.value.fields;
      }
    }

    /** `get_field_path_for_name`: a cached name gives its cached path; any
        other name is resolved by `ResolveName` and cached only when it
        resolves. */
    method GetFieldPathForName(name: string) returns (r: Result<FieldPath, PathError>)
      requires Valid()
      requires PathOfName(fields, name, true) != Panics
      modifies this`fpCache
      ensures Valid()
      ensures r == AsResult(PathOfName(fields, name, true))
      ensures fpCache == if r.Ok? then old(fpCache)[name := r.value] else old(fpCache)
    {
      if name !in fpCache {
        var found := ResolveName(name);
        if found.Err? {
          return found;
        }
        fpCache := fpCache[name := found.value];
      }
      r := Ok(fpCache[name]);
    }

    /** The uncached part of `get_field_path_for_name`: the `'outer` loop
        scans the current serializer's fields for the first one that is the
        rest of the name, or its prefix followed by `.`, and steps into it.
        An array element is read from the name after the array's `.`. */
    method ResolveName(name: string) returns (r: Result<FieldPath, PathError>)
      requires PathOfName(fields, name, true) != Panics
      ensures r == AsResult(PathOfName(fields, name, true))
    {
      ghost var target := PathOfName(fields, name, true);
      var current := fields;
      var fp := NewPath();
      var offset: nat := 0;
      label outer: while true
        invariant fp.last <= PathLen
        invariant ScanFields(current, name, offset, fp, 0, true) == target
        decreases PathLen - fp.last
      {
        var k := 0;
        ghost var top := fp;
        while k < |current|
          invariant k <= |current| && fp == top
          invariant ScanFields(current, name, offset, fp, k, true) == target
          decreases |current| - k
        {
          var f := current[k];
          if ExactMatch(f, name[offset..]) {
            fp := Set(fp, fp.last, LowByte(k));
            assert target == Resolved(fp);
            break outer;
          }
          if PrefixMatch(f, name[offset..]) {
            var next := offset + |f.varName| + 1;
            assert target == EnterField(f, name, next, Down(Set(fp, fp.last, LowByte(k))), true);
            fp := Down(Set(fp, fp.last, LowByte(k)));
            offset := next;
            match f.model {
              case FixedArray | VariableArray =>
                var v := ParseU8(name[offset..]);
                if v.None? {
                  return Err(ParseIndex);
                }
                fp := Set(fp, fp.last, v.value);
                assert target == Resolved(fp);
                break outer;
              case FixedTable =>
                current := f.serializer.value.fields;
                continue outer;
              case VariableTable =>
                var v := ParseU8(name[offset..offset + 4]);
                if v.None? {
                  return Err(ParseIndex);
                }
                fp := Down(Set(fp, fp.last, v.value));
                offset := offset + 5;
                current := f.serializer.value.fields;
                continue outer;
              case Simple =>
                assert false;
            }
          }
          k := k + 1;
        }
        return Err(NoFieldPath);
      }
      r := Ok(fp);
    }

    /** `get_field_paths`: every field's own walk, in field order, each run
        with the field's index written at the cursor's level. */
    method GetFieldPaths(fp: FieldPath, st: FieldState, walk: FieldWalk) returns (paths: seq<FieldPath>, cursor: FieldPath)
      requires PathsFrom(fields, 0, fp, st, walk).Some?
      ensures PathsFrom(fields, 0, fp, st, walk) == Some((paths, cursor))
    {
      paths, cursor := [], fp;
      var k := 0;
      assert paths + PathsFrom(fields, k, cursor, st, walk).value.0 == PathsFrom(fields, k, cursor, st, walk).value.0;
      while k < |fields|
        invariant k <= |fields|
        invariant PathsFrom(fields, k, cursor, st, walk).Some?
        invariant PathsFrom(fields, 0, fp, st, walk) ==
          Some((paths + PathsFrom(fields, k, cursor, st, walk).value.0, PathsFrom(fields, k, cursor, st, walk).value.1))
        decreases |fields| - k
      {
        var step := walk(fields[k], Set(cursor, cursor.last, LowByte(k)), st);
        assert paths + (step.0 + PathsFrom(fields, k + 1, step.1, st, walk).value.0)
          == (paths + step.0) + PathsFrom(fields, k + 1, step.1, st, walk).value.0;
        paths := paths + step.0;
        cursor := step.1;
        k := k + 1;
      }
      assert paths + PathsFrom(fields, k, cursor, st, walk).value.0 == paths;
    }
  }
}
