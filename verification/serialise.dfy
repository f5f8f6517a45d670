/** The hand-written dataclass serialiser of the tools tutorial: `to_dict`,
    `dataclass_obj_to_dict` (with per-class field exclusion) and
    `dataclass_obj_from_dict`, which rebuilds an object from a type and a
    plain dictionary. Python objects are modelled as a value tree and Python
    types as a schema tree. */
module Serialise {
  import opened Wrappers

  /* ---------------- values and types ---------------- */

  /** The non-container values the tutorial serialises. */
  datatype Primitive = IntP(i: int) | StrP(s: string) | BoolP(b: bool) | NoneP

  /** A Python value: a primitive, a list, a dict with string keys (in
      insertion order), or a dataclass instance (its class name and its fields
      in declaration order). */
  datatype Value =
    | Prim(p: Primitive)
    | List(items: seq<Value>)
    | Dict(entries: seq<Entry>)
    | Record(cls: string, fields: seq<Entry>)

  /** A dict item or a dataclass field. */
  datatype Entry = Entry(key: string, val: Value)

  /** A Python type annotation: a primitive type, `List[T]`, `Dict[K, V]`, or a
      dataclass with its fields in declaration order (fields without
      defaults). */
  datatype Schema =
    | PrimT
    | ListT(elem: Schema)
    | DictT(keyType: Schema, valType: Schema)
    | ClassT(name: string, fields: seq<FieldSpec>)

  datatype FieldSpec = FieldSpec(name: string, ty: Schema)

  /** The keys of a dict, or the names of a dataclass's fields, in order. */
  function Keys(es: seq<Entry>): (ks: seq<string>)
    ensures |ks| == |es| && forall i :: 0 <= i < |es| ==> ks[i] == es[i].key
  {
    seq(|es|, i requires 0 <= i < |es| => es[i].key)
  }

  /** The value contains no dataclass instance at any depth: it is made of
      primitives, lists and dicts only. */
  predicate IsPlain(v: Value) {
    match v
    case Prim(_) => true
    case List(items) => forall i :: 0 <= i < |items| ==> IsPlain(items[i])
    case Dict(es) => forall i :: 0 <= i < |es| ==> IsPlain(es[i].val)
    case Record(_, _) => false
  }

  /* ---------------- to_dict ---------------- */

  /** `to_dict(obj)`: dataclass instances become dicts of their fields,
      lists and dicts are converted element by element, and primitives are
      returned as they are. */
  function ToDict(v: Value): (r: Value)
    ensures IsPlain(r)
    ensures v.Prim? ==> r == v
    ensures v.List? ==> r.List? && |r.items| == |v.items|
    ensures v.Dict? ==> r.Dict? && Keys(r.entries) == Keys(v.entries)
    ensures v.Record? ==> r.Dict? && Keys(r.entries) == Keys(v.fields)
    decreases v, 1
  {
    match v
    case Prim(_) => v
    case List(items) => List(ToDictItems(items))
    case Dict(es) => Dict(ToDictEntries(es))
    case Record(_, fs) => Dict(ToDictEntries(fs))
  }

  function ToDictItems(items: seq<Value>): (r: seq<Value>)
    ensures |r| == |items| && forall i :: 0 <= i < |r| ==> IsPlain(r[i])
    decreases items, 0
  {
    seq(|items|, i requires 0 <= i < |items| => ToDict(items[i]))
  }

  function ToDictEntries(es: seq<Entry>): (r: seq<Entry>)
    ensures Keys(r) == Keys(es) && forall i :: 0 <= i < |r| ==> IsPlain(r[i].val)
    decreases es, 0
  {
    seq(|es|, i requires 0 <= i < |es| => Entry(es[i].key, ToDict(es[i].val)))
  }

  /** `to_dict` on a list converts each element in place. */
  lemma ToDictListElementwise(items: seq<Value>)
    ensures forall i :: 0 <= i < |items| ==> ToDict(List(items)).items[i] == ToDict(items[i])
  {
  }

  /** `to_dict` on a dataclass instance keeps each field name at its position
      and converts its value. */
  lemma ToDictRecordFieldwise(cls: string, fs: seq<Entry>)
    ensures forall i :: 0 <= i < |fs| ==>
      ToDict(Record(cls, fs)).entries[i] == Entry(fs[i].key, ToDict(fs[i].val))
  {
  }

  /** A value without dataclass instances is its own `to_dict`; in
      particular `to_dict` is idempotent. */
  lemma {:induction false} ToDictOfPlain(v: Value)
    requires IsPlain(v)
    ensures ToDict(v) == v
    decreases v
  {
    match v
    case Prim(_) =>
    case List(items) =>
      forall i | 0 <= i < |items|
        ensures ToDict(items[i]) == items[i]
      {
        ToDictOfPlain(items[i]);
      }
      assert ToDictItems(items) == items;
    case Dict(es) =>
      forall i | 0 <= i < |es|
        ensures ToDict(es[i].val) == es[i].val
      {
        ToDictOfPlain(es[i].val);
      }
      assert ToDictEntries(es) == es;
  }

  /* ---------------- dataclass_obj_to_dict ---------------- */

  /** The `exclude` argument: class name to the field names left out. */
  type ExcludeMap = map<string, seq<string>>

  /** `exclude.get(obj_class_name, [])`. */
  function ExcludedFields(exclude: ExcludeMap, cls: string): seq<string> {
    if cls in exclude then exclude[cls] else []
  }

  /** The entries whose key is not listed in `drop`, in their original order. */
  function KeepFields(fs: seq<Entry>, drop: seq<string>): (r: seq<Entry>)
    ensures |r| <= |fs|
    ensures forall e :: e in r <==> e in fs && e.key !in drop
    decreases |fs|
  {
    if |fs| == 0 then []
    else (if fs[0].key in drop then [] else [fs[0]]) + KeepFields(fs[1..], drop)
  }

  /** Keeping fields works entry by entry, so the declaration order is kept. */
  lemma {:induction false} KeepFieldsAppend(a: seq<Entry>, b: seq<Entry>, drop: seq<string>)
    ensures KeepFields(a + b, drop) == KeepFields(a, drop) + KeepFields(b, drop)
    decreases |a|
  {
    if |a| == 0 {
      assert a + b == b;
    } else {
      assert (a + b)[0] == a[0];
      assert (a + b)[1..] == a[1..] + b;
      KeepFieldsAppend(a[1..], b, drop);
    }
  }

  /** Nothing to drop keeps every entry. */
  lemma {:induction false} KeepFieldsNone(fs: seq<Entry>)
    ensures KeepFields(fs, []) == fs
    decreases |fs|
  {
    if |fs| > 0 {
      KeepFieldsNone(fs[1..]);
      assert fs == [fs[0]] + fs[1..];
    }
  }

  /** `dataclass_obj_to_dict(obj, exclude)` with `exclude` already defaulted:
      like `to_dict`, except that each dataclass instance leaves out the
      fields listed under its own class name. Plain dicts keep all keys. */
  function ConvertExcluding(v: Value, exclude: ExcludeMap): (r: Value)
    ensures IsPlain(r)
    ensures v.Prim? ==> r == v
    ensures v.List? ==> r.List? && |r.items| == |v.items|
    ensures v.Dict? ==> r.Dict? && Keys(r.entries) == Keys(v.entries)
    ensures v.Record? ==> r.Dict? && forall k :: k in Keys(r.entries) <==>
      k in Keys(v.fields) && k !in ExcludedFields(exclude, v.cls)
    decreases v, 1
  {
    match v
    case Prim(_) => v
    case List(items) => List(ConvertItems(items, exclude))
    case Dict(es) => Dict(ConvertEntries(es, es, exclude))
    case Record(c, fs) => Dict(ConvertEntries(fs, KeepFields(fs, ExcludedFields(exclude, c)), exclude))
  }

  function ConvertItems(items: seq<Value>, exclude: ExcludeMap): (r: seq<Value>)
    ensures |r| == |items| && forall i :: 0 <= i < |r| ==> IsPlain(r[i])
    decreases items, 0
  {
    seq(|items|, i requires 0 <= i < |items| => ConvertExcluding(items[i], exclude))
  }

  /** Converts the values of `kept`, a selection of the entries `all` of the
      object being converted. */
  function ConvertEntries(all: seq<Entry>, kept: seq<Entry>, exclude: ExcludeMap): (r: seq<Entry>)
    requires forall e :: e in kept ==> e in all
    ensures Keys(r) == Keys(kept) && forall i :: 0 <= i < |r| ==> IsPlain(r[i].val)
    decreases all, 0
  {
    seq(|kept|, i requires 0 <= i < |kept| =>
      assert kept[i] in all; Entry(kept[i].key, ConvertExcluding(kept[i].val, exclude)))
  }

  /** `dataclass_obj_to_dict(obj, exclude)`; `None` stands for no exclusion. */
  function DataclassObjToDict(obj: Value, exclude: Option<ExcludeMap>): (r: Value)
    ensures IsPlain(r)
    ensures obj.Record? ==> r.Dict? && forall k :: k in Keys(r.entries) <==>
      k in Keys(obj.fields) && (exclude.None? || k !in ExcludedFields(exclude.value, obj.cls))
  {
    ConvertExcluding(obj, exclude.GetOr(map[]))
  }

  /** Leaves out, in every dataclass instance at any depth, the fields listed
      under its class name; instances stay instances. */
  function Prune(v: Value, exclude: ExcludeMap): (r: Value)
    ensures v.Record? ==> r.Record? && r.cls == v.cls
    decreases v, 1
  {
    match v
    case Prim(_) => v
    case List(items) => List(PruneItems(items, exclude))
    case Dict(es) => Dict(PruneEntries(es, es, exclude))
    case Record(c, fs) => Record(c, PruneEntries(fs, KeepFields(fs, ExcludedFields(exclude, c)), exclude))
  }

  function PruneItems(items: seq<Value>, exclude: ExcludeMap): (r: seq<Value>)
    ensures |r| == |items|
    decreases items, 0
  {
    seq(|items|, i requires 0 <= i < |items| => Prune(items[i], exclude))
  }

  function PruneEntries(all: seq<Entry>, kept: seq<Entry>, exclude: ExcludeMap): (r: seq<Entry>)
    requires forall e :: e in kept ==> e in all
    ensures Keys(r) == Keys(kept)
    decreases all, 0
  {
    seq(|kept|, i requires 0 <= i < |kept| =>
      assert kept[i] in all; Entry(kept[i].key, Prune(kept[i].val, exclude)))
  }

  /** Conversion with exclusion is pruning followed by `to_dict`: the
      exclusion of each instance is decided by its own class, at every depth. */
  lemma {:induction false} ExclusionIsPruneThenToDict(v: Value, exclude: ExcludeMap)
    ensures ConvertExcluding(v, exclude) == ToDict(Prune(v, exclude))
    decreases v
  {
    match v
    case Prim(_) =>
    case List(items) =>
      forall i | 0 <= i < |items|
        ensures ConvertExcluding(items[i], exclude) == ToDict(Prune(items[i], exclude))
      {
        ExclusionIsPruneThenToDict(items[i], exclude);
      }
      assert ConvertItems(items, exclude) == ToDictItems(PruneItems(items, exclude));
    case Dict(es) =>
      forall i | 0 <= i < |es|
        ensures ConvertExcluding(es[i].val, exclude) == ToDict(Prune(es[i].val, exclude))
      {
        ExclusionIsPruneThenToDict(es[i].val, exclude);
      }
      assert ConvertEntries(es, es, exclude) == ToDictEntries(PruneEntries(es, es, exclude));
    case Record(c, fs) =>
      var kept := KeepFields(fs, ExcludedFields(exclude, c));
      forall i | 0 <= i < |kept|
        ensures ConvertExcluding(kept[i].val, exclude) == ToDict(Prune(kept[i].val, exclude))
      {
        assert kept[i] in fs;
        ExclusionIsPruneThenToDict(kept[i].val, exclude);
      }
      assert ConvertEntries(fs, kept, exclude) == ToDictEntries(PruneEntries(fs, kept, exclude));
  }

  /** With nothing excluded, pruning changes nothing. */
  lemma {:induction false} PruneNothing(v: Value)
    ensures Prune(v, map[]) == v
    decreases v
  {
    match v
    case Prim(_) =>
    case List(items) =>
      forall i | 0 <= i < |items|
        ensures Prune(items[i], map[]) == items[i]
      {
        PruneNothing(items[i]);
      }
      assert PruneItems(items, map[]) == items;
    case Dict(es) =>
      forall i | 0 <= i < |es|
        ensures Prune(es[i].val, map[]) == es[i].val
      {
        PruneNothing(es[i].val);
      }
      assert PruneEntries(es, es, map[]) == es;
    case Record(c, fs) =>
      KeepFieldsNone(fs);
      forall i | 0 <= i < |fs|
        ensures Prune(fs[i].val, map[]) == fs[i].val
      {
        PruneNothing(fs[i].val);
      }
      assert PruneEntries(fs, fs, map[]) == fs;
  }

  /** With `exclude=None`, `dataclass_obj_to_dict` coincides with `to_dict`. */
  lemma NoExclusionIsToDict(v: Value)
    ensures DataclassObjToDict(v, None) == ToDict(v)
  {
    ExclusionIsPruneThenToDict(v, map[]);
    PruneNothing(v);
  }

  /** The keys of a plain dict are never removed, whatever is excluded. */
  lemma DictKeysNeverExcluded(es: seq<Entry>, exclude: Option<ExcludeMap>)
    ensures DataclassObjToDict(Dict(es), exclude).Dict?
    ensures Keys(DataclassObjToDict(Dict(es), exclude).entries) == Keys(es)
  {
  }

  /* ---------------- dataclass_obj_from_dict ---------------- */

  /** The exceptions `dataclass_obj_from_dict` can raise. */
  datatype DecodeError =
    | NotAMapping                                  // `.items()` on data that is not a dict
    | UnknownField(cls: string, key: string)       // `fieldtypes[key]`: KeyError
    | MissingArguments(cls: string, names: seq<string>)  // `cls(**kwargs)`: TypeError
    | NoTypeArguments                              // `cls.__args__` on a non-generic type
    | TypeArgumentMissing                          // `cls.__args__[1]` on `List[T]`

  /** `{f.name: f.type for f in fields}[key]`. */
  function FieldType(fields: seq<FieldSpec>, key: string): (r: Option<Schema>)
    ensures r.None? <==> forall i :: 0 <= i < |fields| ==> fields[i].name != key
    decreases |fields|
  {
    if |fields| == 0 then None
    else if fields[0].name == key then Some(fields[0].ty)
    else FieldType(fields[1..], key)
  }

  /** `cls.__args__[index]` for the generic types. */
  function TypeArgument(s: Schema, index: nat): (r: Result<Schema, DecodeError>)
    ensures r.Success? <==> (s.ListT? && index == 0) || (s.DictT? && index <= 1)
    ensures r.Success? ==> r.value < s
    ensures r.Failure? ==> r.error == if s.ListT? || s.DictT? then TypeArgumentMissing else NoTypeArguments
  {
    match s
    case ListT(e) => if index == 0 then Success(e) else Failure(TypeArgumentMissing)
    case DictT(k, e) =>
      if index == 0 then Success(k) else if index == 1 then Success(e) else Failure(TypeArgumentMissing)
    case _ => Failure(NoTypeArguments)
  }

  /** `dataclass_obj_from_dict(cls, data)`. */
  function FromDict(s: Schema, d: Value): (r: Result<Value, DecodeError>)
    ensures r.Success? && s.ClassT? ==>
      r.value.Record? && r.value.cls == s.name && Keys(r.value.fields) == Names(s.fields)
    decreases d, 1
  {
    if s.ClassT? then
      if !d.Dict? then Failure(NotAMapping)
      else
        var kwargs :- DecodeArguments(s.name, s.fields, d.entries);
        Construct(s.name, s.fields, kwargs)
    // `cls.__args__[i]` is evaluated inside the comprehension, so only when
    // there is an element to decode.
    else if d.List? then
      if |d.items| == 0 then Success(List([]))
      else
        var elem :- TypeArgument(s, 0);
        var items :- DecodeItems(elem, d.items);
        Success(List(items))
    else if d.Dict? then
      if |d.entries| == 0 then Success(Dict([]))
      else
        var elem :- TypeArgument(s, 1);
        var es :- DecodeEntries(elem, d.entries);
        Success(Dict(es))
    else Success(d)
  }

  /** An empty list or dict decodes to itself against any type that is not a
      dataclass, whether or not the type has the arguments a non-empty
      container would need. */
  lemma EmptyContainerDecodes(s: Schema)
    requires !s.ClassT?
    ensures FromDict(s, List([])) == Success(List([]))
    ensures FromDict(s, Dict([])) == Success(Dict([]))
  { }

  /** A non-empty container decoded against a type without the needed
      argument fails with that type's error. */
  lemma MissingTypeArgumentFails(s: Schema, d: Value)
    requires !s.ClassT? && ((d.List? && |d.items| > 0) || (d.Dict? && |d.entries| > 0))
    requires TypeArgument(s, if d.List? then 0 else 1).Failure?
    ensures FromDict(s, d) == Failure(TypeArgument(s, if d.List? then 0 else 1).error)
  { }

  /** The element-wise decoding of a list, stopping at the first error. */
  function DecodeItems(elem: Schema, items: seq<Value>): (r: Result<seq<Value>, DecodeError>)
    ensures r.Success? ==> |r.value| == |items|
    decreases items, 0
  {
    if |items| == 0 then Success([])
    else
      var first :- FromDict(elem, items[0]);
      var rest :- DecodeItems(elem, items[1..]);
      Success([first] + rest)
  }

  /** The value-wise decoding of a dict, stopping at the first error. */
  function DecodeEntries(elem: Schema, es: seq<Entry>): (r: Result<seq<Entry>, DecodeError>)
    ensures r.Success? ==> Keys(r.value) == Keys(es)
    decreases es, 0
  {
    if |es| == 0 then Success([])
    else
      var first :- FromDict(elem, es[0].val);
      var rest :- DecodeEntries(elem, es[1..]);
      Success([Entry(es[0].key, first)] + rest)
  }

  /** The keyword arguments for the constructor: each key of the data must be
      a field, and its value is decoded against that field's type. */
  function DecodeArguments(cls: string, fields: seq<FieldSpec>, es: seq<Entry>): (r: Result<seq<Entry>, DecodeError>)
    ensures r.Success? ==> Keys(r.value) == Keys(es)
    decreases es, 0
  {
    if |es| == 0 then Success([])
    else
      match FieldType(fields, es[0].key)
      case None => Failure(UnknownField(cls, es[0].key))
      case Some(t) =>
        var first :- FromDict(t, es[0].val);
        var rest :- DecodeArguments(cls, fields, es[1..]);
        Success([Entry(es[0].key, first)] + rest)
  }

  /** The declared field names, in order. */
  function Names(fields: seq<FieldSpec>): (ns: seq<string>)
    ensures |ns| == |fields| && forall i :: 0 <= i < |fields| ==> ns[i] == fields[i].name
  {
    seq(|fields|, i requires 0 <= i < |fields| => fields[i].name)
  }

  /** The declared fields with no keyword argument, in declaration order. */
  function MissingNames(fields: seq<FieldSpec>, kwargs: seq<Entry>): (r: seq<string>)
    ensures forall n :: n in r <==> n in Names(fields) && n !in Keys(kwargs)
    decreases |fields|
  {
    if |fields| == 0 then []
    else
      (if fields[0].name in Keys(kwargs) then [] else [fields[0].name])
      + MissingNames(fields[1..], kwargs)
  }

  /** The value of the first keyword argument named `key`. */
  function Argument(kwargs: seq<Entry>, key: string): Value
    requires key in Keys(kwargs)
    decreases |kwargs|
  {
    if kwargs[0].key == key then kwargs[0].val else Argument(kwargs[1..], key)
  }

  /** `cls(**kwargs)`: every field must be given; the instance holds its
      fields in declaration order. */
  function Construct(cls: string, fields: seq<FieldSpec>, kwargs: seq<Entry>): (r: Result<Value, DecodeError>)
    ensures r.Failure? <==> exists n :: n in Names(fields) && n !in Keys(kwargs)
  {
    var missing := MissingNames(fields, kwargs);
    if |missing| > 0 then
      assert missing[0] in missing;
      Failure(MissingArguments(cls, missing))
    else
      assert forall i :: 0 <= i < |fields| ==> fields[i].name in Names(fields);
      Success(Record(cls, seq(|fields|, i requires 0 <= i < |fields| =>
        Entry(fields[i].name, Argument(kwargs, fields[i].name)))))
  }

  /* ---------------- typing and the round trip ---------------- */

  /** The value is an instance of the type: a dataclass instance has exactly
      the declared fields, in order, each of its declared type. */
  predicate WellTyped(v: Value, s: Schema)
    decreases s
  {
    match s
    case PrimT => v.Prim?
    case ListT(e) => v.List? && forall i :: 0 <= i < |v.items| ==> WellTyped(v.items[i], e)
    case DictT(_, e) => v.Dict? && forall i :: 0 <= i < |v.entries| ==> WellTyped(v.entries[i].val, e)
    case ClassT(n, fs) =>
      && v.Record? && v.cls == n && |v.fields| == |fs|
      && forall i :: 0 <= i < |fs| ==> v.fields[i].key == fs[i].name && WellTyped(v.fields[i].val, fs[i].ty)
  }

  /** Field names are unique within every dataclass of the type, as Python requires. */
  predicate WellFormed(s: Schema)
    decreases s
  {
    match s
    case PrimT => true
    case ListT(e) => WellFormed(e)
    case DictT(_, e) => WellFormed(e)
    case ClassT(_, fs) =>
      && (forall i, j :: 0 <= i < j < |fs| ==> fs[i].name != fs[j].name)
      && forall i :: 0 <= i < |fs| ==> WellFormed(fs[i].ty)
  }

  /** Rebuilding an object from its `to_dict` form gives the object back. */
  lemma {:induction false} FromToDict(v: Value, s: Schema)
    requires WellFormed(s) && WellTyped(v, s)
    ensures FromDict(s, ToDict(v)) == Success(v)
    decreases v, 1
  {
    match s
    case PrimT =>
    case ListT(e) =>
      DecodeItemsRoundTrip(e, v.items);
    case DictT(_, e) =>
      DecodeEntriesRoundTrip(e, v.entries);
    case ClassT(n, fs) =>
      forall i | 0 <= i < |fs|
        ensures FieldType(fs, v.fields[i].key) == Some(fs[i].ty)
      {
        FieldTypeOfDeclared(fs, i);
      }
      DecodeArgumentsRoundTrip(n, fs, v.fields);
      ConstructRoundTrip(n, fs, v.fields);
  }

  lemma {:induction false} DecodeItemsRoundTrip(e: Schema, items: seq<Value>)
    requires WellFormed(e) && forall i :: 0 <= i < |items| ==> WellTyped(items[i], e)
    ensures DecodeItems(e, ToDictItems(items)) == Success(items)
    decreases items, 0
  {
    if |items| > 0 {
      var d := ToDictItems(items);
      assert d[0] == ToDict(items[0]);
      FromToDict(items[0], e);
      DecodeItemsRoundTrip(e, items[1..]);
      assert d[1..] == ToDictItems(items[1..]);
      DecodeItemsCons(e, d, items[0], items[1..]);
      assert items == [items[0]] + items[1..];
    }
  }

  /** A list decodes to its decoded head followed by its decoded tail. */
  lemma DecodeItemsCons(elem: Schema, d: seq<Value>, first: Value, rest: seq<Value>)
    requires |d| > 0 && FromDict(elem, d[0]) == Success(first) && DecodeItems(elem, d[1..]) == Success(rest)
    ensures DecodeItems(elem, d) == Success([first] + rest)
  {
  }

  lemma {:induction false} DecodeEntriesRoundTrip(e: Schema, es: seq<Entry>)
    requires WellFormed(e) && forall i :: 0 <= i < |es| ==> WellTyped(es[i].val, e)
    ensures DecodeEntries(e, ToDictEntries(es)) == Success(es)
    decreases es, 0
  {
    if |es| > 0 {
      FromToDict(es[0].val, e);
      DecodeEntriesRoundTrip(e, es[1..]);
      assert ToDictEntries(es)[1..] == ToDictEntries(es[1..]);
      assert es == [Entry(es[0].key, es[0].val)] + es[1..];
    }
  }

  lemma {:induction false} DecodeArgumentsRoundTrip(cls: string, fields: seq<FieldSpec>, es: seq<Entry>)
    requires forall i :: 0 <= i < |es| ==>
      && FieldType(fields, es[i].key).Some?
      && WellFormed(FieldType(fields, es[i].key).value)
      && WellTyped(es[i].val, FieldType(fields, es[i].key).value)
    ensures DecodeArguments(cls, fields, ToDictEntries(es)) == Success(es)
    decreases es, 0
  {
    if |es| > 0 {
      FromToDict(es[0].val, FieldType(fields, es[0].key).value);
      DecodeArgumentsRoundTrip(cls, fields, es[1..]);
      assert ToDictEntries(es)[1..] == ToDictEntries(es[1..]);
      assert es == [Entry(es[0].key, es[0].val)] + es[1..];
    }
  }

  /** With unique names, the type of a declared field is found by its name. */
  lemma {:induction false} FieldTypeOfDeclared(fields: seq<FieldSpec>, i: nat)
    requires i < |fields| && forall a, b :: 0 <= a < b < |fields| ==> fields[a].name != fields[b].name
    ensures FieldType(fields, fields[i].name) == Some(fields[i].ty)
    decreases i
  {
    if i > 0 {
      FieldTypeOfDeclared(fields[1..], i - 1);
    }
  }

  /** With unique keys, the argument named by the `i`-th key is the `i`-th value. */
  lemma {:induction false} ArgumentOfDistinct(kwargs: seq<Entry>, i: nat)
    requires i < |kwargs| && forall a, b :: 0 <= a < b < |kwargs| ==> kwargs[a].key != kwargs[b].key
    ensures kwargs[i].key in Keys(kwargs) && Argument(kwargs, kwargs[i].key) == kwargs[i].val
    decreases i
  {
    if i > 0 {
      ArgumentOfDistinct(kwargs[1..], i - 1);
      assert Keys(kwargs[1..]) == Keys(kwargs)[1..];
    }
  }

  lemma ConstructRoundTrip(cls: string, fields: seq<FieldSpec>, vfs: seq<Entry>)
    requires |vfs| == |fields|
    requires forall i :: 0 <= i < |fields| ==> vfs[i].key == fields[i].name
    requires forall i, j :: 0 <= i < j < |fields| ==> fields[i].name != fields[j].name
    ensures Construct(cls, fields, vfs) == Success(Record(cls, vfs))
  {
    assert Keys(vfs) == Names(fields);
    forall i | 0 <= i < |fields|
      ensures Argument(vfs, fields[i].name) == vfs[i].val
    {
      ArgumentOfDistinct(vfs, i);
    }
    var built := seq(|fields|, i requires 0 <= i < |fields| => Entry(fields[i].name, Argument(vfs, fields[i].name)));
    assert built == vfs;
  }

  /** The round trip of the tutorial: an object that is an instance of its
      type is rebuilt from `dataclass_obj_to_dict(obj)` by
      `dataclass_obj_from_dict(cls, ...)`. */
  lemma RoundTrip(obj: Value, cls: Schema)
    requires WellFormed(cls) && WellTyped(obj, cls)
    ensures FromDict(cls, DataclassObjToDict(obj, None)) == Success(obj)
  {
    NoExclusionIsToDict(obj);
    FromToDict(obj, cls);
  }

  /** A data key that is not a field of the dataclass makes the decoding fail. */
  lemma {:induction false} UnknownKeyFails(cls: string, fields: seq<FieldSpec>, es: seq<Entry>, k: nat)
    requires k < |es| && forall i :: 0 <= i < |fields| ==> fields[i].name != es[k].key
    ensures FromDict(ClassT(cls, fields), Dict(es)).Failure?
  {
    DecodeArgumentsUnknownKey(cls, fields, es, k);
  }

  lemma {:induction false} DecodeArgumentsUnknownKey(cls: string, fields: seq<FieldSpec>, es: seq<Entry>, k: nat)
    requires k < |es| && forall i :: 0 <= i < |fields| ==> fields[i].name != es[k].key
    ensures DecodeArguments(cls, fields, es).Failure?
    decreases k
  {
    if k > 0 && FieldType(fields, es[0].key).Some? {
      DecodeArgumentsUnknownKey(cls, fields, es[1..], k - 1);
    }
  }

  /** Excluding a field of the top-level dataclass makes the round trip fail:
      either a nested instance fails first or the constructor misses the
      excluded argument. */
  lemma ExcludedFieldBreaksRoundTrip(obj: Value, cls: string, fields: seq<FieldSpec>, exclude: ExcludeMap, i: nat)
    requires WellTyped(obj, ClassT(cls, fields))
    requires i < |fields| && fields[i].name in ExcludedFields(exclude, cls)
    ensures FromDict(ClassT(cls, fields), DataclassObjToDict(obj, Some(exclude))).Failure?
  {
    var d := DataclassObjToDict(obj, Some(exclude));
    assert fields[i].name in Names(fields);
    var args := DecodeArguments(cls, fields, d.entries);
    if args.Success? {
      assert fields[i].name !in Keys(d.entries);
    }
  }

  /* ---------------- the tutorial's example ---------------- */

  const TrecDataType: Schema := ClassT("TrecData", [FieldSpec("question", PrimT), FieldSpec("label", PrimT)])

  const TrecDataListType: Schema :=
    ClassT("TrecDataList", [FieldSpec("data", ListT(TrecDataType)), FieldSpec("name", PrimT)])

  const Question: Value := Prim(StrP("What is the capital of France?"))

  const TrecDataListObj: Value :=
    Record("TrecDataList", [
      Entry("data", List([TrecDataObj])),
      Entry("name", Prim(StrP("trec_data_list")))])

  const ExampleExclude: ExcludeMap := map["TrecData" := ["label"], "TrecDataList" := ["name"]]

  const TrecDataObj: Value := Record("TrecData", [Entry("question", Question), Entry("label", Prim(IntP(0)))])

  lemma ExampleInnerExclusion()
    ensures ConvertExcluding(TrecDataObj, ExampleExclude) == Dict([Entry("question", Question)])
  {
    assert ExcludedFields(ExampleExclude, "TrecData") == ["label"];
    assert KeepFields(TrecDataObj.fields, ["label"]) == [Entry("question", Question)];
  }

  /** Excluding `TrecData.label` and `TrecDataList.name` drops both fields:
      `name` does not survive, unlike in the docstring's sample output. */
  lemma ExampleExclusion()
    ensures DataclassObjToDict(TrecDataListObj, Some(ExampleExclude))
      == Dict([Entry("data", List([Dict([Entry("question", Question)])]))])
  {
    ExampleInnerExclusion();
    ExampleOuterKept();
    var kept := [Entry("data", List([TrecDataObj]))];
    var converted := List([Dict([Entry("question", Question)])]);
    assert ConvertExcluding(kept[0].val, ExampleExclude) == converted;
    assert ConvertEntries(TrecDataListObj.fields, kept, ExampleExclude) == [Entry("data", converted)];
  }

  lemma ExampleOuterKept()
    ensures KeepFields(TrecDataListObj.fields, ExcludedFields(ExampleExclude, "TrecDataList"))
      == [Entry("data", List([TrecDataObj]))]
  {
    assert ExcludedFields(ExampleExclude, "TrecDataList") == ["name"];
    var fs := TrecDataListObj.fields;
    assert KeepFields(fs[1..], ["name"]) == [] by {
      assert fs[1..][1..] == [];
    }
  }

  /** The example object is rebuilt from its dict form without exclusion. */
  lemma ExampleRoundTrip()
    ensures FromDict(TrecDataListType, DataclassObjToDict(TrecDataListObj, None)) == Success(TrecDataListObj)
  {
    ExampleWellTyped();
    ExampleWellFormed();
    RoundTrip(TrecDataListObj, TrecDataListType);
  }

  /** The example object has the example type. */
  lemma ExampleWellTyped()
    ensures WellTyped(TrecDataListObj, TrecDataListType)
  {
    assert WellTyped(TrecDataObj, TrecDataType);
  }

  /** The example types have unique field names. */
  lemma ExampleWellFormed()
    ensures WellFormed(TrecDataListType)
  {
    assert WellFormed(TrecDataType);
  }

  /** With the example's exclusion, rebuilding fails inside the list, because
      `TrecData` misses `label`. */
  lemma ExampleExcludedRoundTripFails()
    ensures FromDict(TrecDataListType, DataclassObjToDict(TrecDataListObj, Some(ExampleExclude)))
      == Failure(MissingArguments("TrecData", ["label"]))
  {
    ExampleExclusion();
    var innerDict := Dict([Entry("question", Question)]);
    var es := [Entry("data", List([innerDict]))];
    assert FieldType(TrecDataListType.fields, "data") == Some(ListT(TrecDataType));
    ExampleListDecodeFails();
    assert DecodeArguments("TrecDataList", TrecDataListType.fields, es) == Failure(MissingArguments("TrecData", ["label"]));
  }

  /** The list of `TrecData` dicts without `label` fails to decode. */
  lemma ExampleListDecodeFails()
    ensures FromDict(ListT(TrecDataType), List([Dict([Entry("question", Question)])]))
      == Failure(MissingArguments("TrecData", ["label"]))
  {
    var innerDict := Dict([Entry("question", Question)]);
    ExampleInnerDecodeFails();
    assert DecodeItems(TrecDataType, [innerDict]) == Failure(MissingArguments("TrecData", ["label"]));
  }

  lemma ExampleInnerDecodeFails()
    ensures FromDict(TrecDataType, Dict([Entry("question", Question)])) == Failure(MissingArguments("TrecData", ["label"]))
  {
    var innerDict := Dict([Entry("question", Question)]);
    assert FieldType(TrecDataType.fields, "question") == Some(PrimT);
    DecodeArgumentsRoundTrip("TrecData", TrecDataType.fields, innerDict.entries);
    assert ToDictEntries(innerDict.entries) == innerDict.entries;
    assert DecodeArguments("TrecData", TrecDataType.fields, innerDict.entries) == Success(innerDict.entries);
    assert MissingNames(TrecDataType.fields, innerDict.entries) == ["label"];
  }
}
