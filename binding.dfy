/** What `Unpacker.Unpack` computes, as functions of the record it starts from:
    the binding-key map, the coercion `populate` performs, the pass over the
    form values and the body step, with the properties each guarantees. */
module Binding {
  import opened Errors
  import opened Strconv

  /** The reflect kind of a field, as far as the binder distinguishes it:
      every kind other than string, int, bool and slice is `Other`, named by
      its Go type (int64, uint, float64, struct, pointer, map, ...). */
  datatype Kind = String | Int | Bool | Slice(elem: Kind) | Other(typeName: string)

  /** A field's current value. `OpaqueVal` stands for the value of a kind the
      binder never writes. A nil slice is `SliceVal([])`. */
  datatype Value =
    | StrVal(s: string)
    | IntVal(i: int)
    | BoolVal(b: bool)
    | SliceVal(elems: seq<Value>)
    | OpaqueVal(token: nat)

  /** One top-level struct field: its Go name, the value of its `http` struct
      tag ("" when absent), its kind and its current value. */
  datatype Field = Field(name: string, tag: string, kind: Kind, value: Value)

  /** `reflect.Type.String()` for the kinds populate names in its error. */
  function TypeName(k: Kind): string {
    match k
    case String => "string"
    case Int => "int"
    case Bool => "bool"
    case Slice(e) => "[]" + TypeName(e)
    case Other(name) => name
  }

  /** A value a Go field of kind `k` can hold (an `int` is 64 bits). */
  predicate Conforms(v: Value, k: Kind)
    decreases k
  {
    match k
    case String => v.StrVal?
    case Int => v.IntVal? && InInt64(v.i)
    case Bool => v.BoolVal?
    case Slice(e) => v.SliceVal? && forall j :: 0 <= j < |v.elems| ==> Conforms(v.elems[j], e)
    case Other(_) => v.OpaqueVal?
  }

  predicate WellTyped(fields: seq<Field>) {
    forall i :: 0 <= i < |fields| ==> Conforms(fields[i].value, fields[i].kind)
  }

  /** The two records have the same fields, in the same order, with the same
      names, tags and kinds: only values may differ. */
  predicate SameShape(a: seq<Field>, b: seq<Field>) {
    |a| == |b| &&
    forall i :: 0 <= i < |a| ==> a[i].name == b[i].name && a[i].tag == b[i].tag && a[i].kind == b[i].kind
  }

  // ----- Binding keys -----

  predicate IsUpper(c: char) {
    'A' <= c <= 'Z'
  }

  function LowerChar(c: char): char {
    if IsUpper(c) then (c as int + 32) as char else c
  }

  /** strings.ToLower, on ASCII letters: the same length, with no ASCII
      upper-case letter left. */
  function ToLower(s: string): (r: string)
    ensures |r| == |s|
    ensures forall i :: 0 <= i < |r| ==> !IsUpper(r[i])
  {
    seq(|s|, i requires 0 <= i < |s| => LowerChar(s[i]))
  }

  /** Lower-casing keeps the length, leaves no upper-case letter, changes
      only upper-case letters (each to its lower-case partner), and doing it
      twice is doing it once. */
  lemma ToLowerSpec(s: string)
    ensures |ToLower(s)| == |s|
    ensures forall i :: 0 <= i < |s| ==> !IsUpper(ToLower(s)[i])
    ensures forall i :: 0 <= i < |s| ==>
      ToLower(s)[i] == s[i] || (IsUpper(s[i]) && ToLower(s)[i] as int == s[i] as int + 32)
    ensures ToLower(ToLower(s)) == ToLower(s)
  {
  }

  /** The name a form value must carry to reach the field: a tag is used as
      written, and an untagged field is reached by its name with no ASCII
      upper-case letter left. */
  function BindingKey(f: Field): (key: string)
    ensures f.tag != "" ==> key == f.tag
    ensures f.tag == "" ==> |key| == |f.name| && forall i :: 0 <= i < |key| ==> !IsUpper(key[i])
  {
    if f.tag == "" then ToLower(f.name) else f.tag
  }

  /** The `fields` map Unpack builds: each field's key, entered in field order,
      so a later field with the same key replaces an earlier one. */
  function KeyMapOf(fields: seq<Field>): (keys: map<string, nat>)
    ensures forall k :: k in keys ==> keys[k] < |fields| && BindingKey(fields[keys[k]]) == k
  {
    if fields == [] then map[]
    else
      var n := |fields| - 1;
      KeyMapOf(fields[..n])[BindingKey(fields[n]) := n]
  }

  /** Every field's key is bound, to that field or a later one. */
  lemma {:induction false} KeyMapHasEveryKey(fields: seq<Field>, i: nat)
    requires i < |fields|
    ensures BindingKey(fields[i]) in KeyMapOf(fields)
    ensures KeyMapOf(fields)[BindingKey(fields[i])] >= i
  {
    var n := |fields| - 1;
    if i < n {
      var init := fields[..n];
      assert init[i] == fields[i];
      KeyMapHasEveryKey(init, i);
    }
  }

  /** A key is bound exactly when some field derives it, and it is bound to
      the last such field. */
  lemma KeyMapBindsLastField(fields: seq<Field>, k: string)
    ensures k in KeyMapOf(fields) <==> exists i :: 0 <= i < |fields| && BindingKey(fields[i]) == k
    ensures k in KeyMapOf(fields) ==>
      forall j :: KeyMapOf(fields)[k] < j < |fields| ==> BindingKey(fields[j]) != k
  {
    forall i | 0 <= i < |fields|
      ensures BindingKey(fields[i]) in KeyMapOf(fields) && KeyMapOf(fields)[BindingKey(fields[i])] >= i
    {
      KeyMapHasEveryKey(fields, i);
    }
  }

  /** A field without an `http` tag can only be reached by a name with no
      ASCII upper-case letter: its Go name, lower-cased. */
  lemma UntaggedFieldKey(fields: seq<Field>, k: string)
    requires k in KeyMapOf(fields) && fields[KeyMapOf(fields)[k]].tag == ""
    ensures k == ToLower(fields[KeyMapOf(fields)[k]].name)
    ensures forall i :: 0 <= i < |k| ==> !IsUpper(k[i])
  {
    ToLowerSpec(fields[KeyMapOf(fields)[k]].name);
  }

  ghost predicate Injective(keys: map<string, nat>) {
    forall a, b :: a in keys && b in keys && a != b ==> keys[a] != keys[b]
  }

  predicate KeysIn(keys: map<string, nat>, n: nat) {
    forall k :: k in keys ==> keys[k] < n
  }

  lemma KeyMapInjective(fields: seq<Field>)
    ensures Injective(KeyMapOf(fields)) && KeysIn(KeyMapOf(fields), |fields|)
  {
  }

  // ----- Coercion (populate) -----

  /** populate: the value text `text` gives a field of kind `k`, or the error.
      A string field takes any text, and what is stored fits the field. */
  function Coerce(k: Kind, text: string): (r: Result<Value>)
    ensures k.String? ==> r.Ok?
    ensures r.Ok? ==> Conforms(r.value, k)
  {
    match k
    case String => Ok(StrVal(text))
    case Int =>
      (match ParseInt(text)
       case Ok(n) => Ok(IntVal(n))
       case Err(e) => Err(e))
    case Bool =>
      (match ParseBool(text)
       case Ok(b) => Ok(BoolVal(b))
       case Err(e) => Err(e))
    case _ => Err(UnsupportedType(TypeName(k)))
  }

  /** The texts populate accepts for each kind. */
  predicate Accepts(k: Kind, text: string) {
    || k.String?
    || (k.Int? && IsDecimal(text) && InInt64(SignedValue(text)))
    || (k.Bool? && text in TrueLiterals + FalseLiterals)
  }

  /** populate stores a string verbatim, an int as ParseInt reads it, a bool as
      ParseBool reads it, rejects every other kind by its type name, and what
      it stores always fits the field. */
  lemma CoerceSpec(k: Kind, text: string)
    ensures Coerce(k, text).Ok? <==> Accepts(k, text)
    ensures Coerce(k, text).Ok? ==> Conforms(Coerce(k, text).value, k)
    ensures k.String? ==> Coerce(k, text) == Ok(StrVal(text))
    ensures k.Int? && Coerce(k, text).Ok? ==> Coerce(k, text).value == IntVal(SignedValue(text))
    ensures k.Bool? && Coerce(k, text).Ok? ==> Coerce(k, text).value == BoolVal(text in TrueLiterals)
    ensures k.Int? && Coerce(k, text).Err? ==>
      Coerce(k, text).error == NumError("ParseInt", text, if OutOfRange(text) then ErrRange else ErrSyntax)
    ensures k.Bool? && Coerce(k, text).Err? ==> Coerce(k, text).error == NumError("ParseBool", text, ErrSyntax)
    ensures !(k.String? || k.Int? || k.Bool?) ==> Coerce(k, text) == Err(UnsupportedType(TypeName(k)))
  {
    ParseIntSpec(text);
  }

  // ----- Applying the values of one form name to one field -----

  /** The elements of a slice value (a nil slice has none). */
  function Elems(v: Value): seq<Value> {
    if v.SliceVal? then v.elems else []
  }

  /** One value of the inner loop: a slice field gets one coerced element
      appended, any other field is overwritten by the coerced value. */
  function ApplyValue(k: Kind, cur: Value, text: string): (r: Result<Value>)
    ensures k.Slice? ==> (r.Ok? <==> Coerce(k.elem, text).Ok?)
    ensures k.Slice? && r.Ok? ==> r.value.SliceVal? && r.value.elems == Elems(cur) + [Coerce(k.elem, text).value]
    ensures !k.Slice? ==> r == Coerce(k, text)
  {
    if k.Slice? then
      match Coerce(k.elem, text)
      case Ok(e) => Ok(SliceVal(Elems(cur) + [e]))
      case Err(err) => Err(err)
    else Coerce(k, text)
  }

  /** The field's value after the inner loop, and the error that stopped it. */
  datatype Applied = Applied(value: Value, err: Option<Error>)

  /** The inner loop over the values of one form name: the first failure
      stops it and leaves the value reached so far. */
  function ApplyValues(k: Kind, cur: Value, texts: seq<string>): (r: Applied)
    ensures r.err.Some? ==> texts != []
    ensures k.Slice? ==> Elems(cur) <= Elems(r.value)
    decreases |texts|
  {
    if texts == [] then Applied(cur, None)
    else
      match ApplyValue(k, cur, texts[0])
      case Err(e) => Applied(cur, Some(e))
      case Ok(v) => ApplyValues(k, v, texts[1..])
  }

  /** Every value must coerce: a field's inner loop succeeds exactly when
      each of its values is accepted for the field's kind (the element kind
      for a slice). */
  lemma {:induction false} ValuesSucceedIffAllCoerce(k: Kind, cur: Value, texts: seq<string>)
    ensures ApplyValues(k, cur, texts).err.None? <==>
      forall j :: 0 <= j < |texts| ==> Coerce(if k.Slice? then k.elem else k, texts[j]).Ok?
    decreases |texts|
  {
    if texts != [] {
      match ApplyValue(k, cur, texts[0])
      case Err(e) =>
      case Ok(v) =>
        ValuesSucceedIffAllCoerce(k, v, texts[1..]);
        assert forall j :: 1 <= j < |texts| ==> texts[1..][j - 1] == texts[j];
    }
  }

  /** The elements a run of values coerces to, up to the first that fails. */
  function CoercedElems(ek: Kind, texts: seq<string>): seq<Value>
    decreases |texts|
  {
    if texts == [] then []
    else
      match Coerce(ek, texts[0])
      case Ok(e) => [e] + CoercedElems(ek, texts[1..])
      case Err(_) => []
  }

  /** When every value coerces, the coerced elements are one per value, in
      value order. */
  lemma {:induction false} CoercedElemsInOrder(ek: Kind, texts: seq<string>)
    requires forall j :: 0 <= j < |texts| ==> Coerce(ek, texts[j]).Ok?
    ensures |CoercedElems(ek, texts)| == |texts|
    ensures forall j :: 0 <= j < |texts| ==> Coerce(ek, texts[j]) == Ok(CoercedElems(ek, texts)[j])
    decreases |texts|
  {
    if texts != [] {
      assert Coerce(ek, texts[0]).Ok?;
      assert forall j :: 1 <= j < |texts| ==> texts[1..][j - 1] == texts[j];
      CoercedElemsInOrder(ek, texts[1..]);
    }
  }

  /** A slice field keeps the elements it had and receives the coerced values
      after them. */
  lemma {:induction false} SliceFieldAppends(k: Kind, cur: Value, texts: seq<string>)
    requires k.Slice? && ApplyValues(k, cur, texts).err.None?
    ensures Elems(ApplyValues(k, cur, texts).value) == Elems(cur) + CoercedElems(k.elem, texts)
    decreases |texts|
  {
    if texts != [] {
      var c := Coerce(k.elem, texts[0]);
      var next := SliceVal(Elems(cur) + [c.value]);
      assert ApplyValue(k, cur, texts[0]) == Ok(next);
      SliceFieldAppends(k, next, texts[1..]);
      assert Elems(cur) + [c.value] + CoercedElems(k.elem, texts[1..]) ==
             Elems(cur) + ([c.value] + CoercedElems(k.elem, texts[1..]));
    }
  }

  /** A field that is not a slice ends with the last value coerced, and keeps
      its value when there is none. */
  lemma {:induction false} ScalarFieldKeepsLast(k: Kind, cur: Value, texts: seq<string>)
    requires !k.Slice?
    ensures texts == [] ==> ApplyValues(k, cur, texts) == Applied(cur, None)
    ensures texts != [] && ApplyValues(k, cur, texts).err.None? ==>
      Coerce(k, texts[|texts| - 1]) == Ok(ApplyValues(k, cur, texts).value)
    decreases |texts|
  {
    if texts != [] {
      match Coerce(k, texts[0])
      case Err(e) =>
      case Ok(v) =>
        ScalarFieldKeepsLast(k, v, texts[1..]);
        assert forall j :: 1 <= j < |texts| ==> texts[1..][j - 1] == texts[j];
    }
  }

  /** A failure does not roll back: the field keeps exactly what the values
      before the failing one made of it, and the failing value is not applied. */
  lemma {:induction false} FailureKeepsEarlierValues(k: Kind, cur: Value, texts: seq<string>)
    requires ApplyValues(k, cur, texts).err.Some?
    ensures exists j :: (0 <= j < |texts| &&
      ApplyValues(k, cur, texts[..j]) == Applied(ApplyValues(k, cur, texts).value, None) &&
      ApplyValue(k, ApplyValues(k, cur, texts).value, texts[j]) == Err(ApplyValues(k, cur, texts).err.value))
    decreases |texts|
  {
    var a := ApplyValues(k, cur, texts);
    match ApplyValue(k, cur, texts[0])
    case Err(e) =>
      assert texts[..0] == [];
      assert ApplyValues(k, cur, texts[..0]) == Applied(a.value, None);
    case Ok(v) =>
      FailureKeepsEarlierValues(k, v, texts[1..]);
      var j :| 0 <= j < |texts[1..]| &&
        ApplyValues(k, v, texts[1..][..j]) == Applied(a.value, None) &&
        ApplyValue(k, a.value, texts[1..][j]) == Err(a.err.value);
      assert texts[..j + 1][1..] == texts[1..][..j];
      assert ApplyValues(k, cur, texts[..j + 1]) == Applied(a.value, None);
  }

  /** Applying values never gives a field a value its kind cannot hold. */
  lemma {:induction false} ApplyValuesConforms(k: Kind, cur: Value, texts: seq<string>)
    requires Conforms(cur, k)
    ensures Conforms(ApplyValues(k, cur, texts).value, k)
    decreases |texts|
  {
    if texts != [] {
      if k.Slice? {
        CoerceSpec(k.elem, texts[0]);
      } else {
        CoerceSpec(k, texts[0]);
      }
      match ApplyValue(k, cur, texts[0])
      case Err(e) =>
      case Ok(v) =>
        if k.Slice? {
          assert v == SliceVal(cur.elems + [Coerce(k.elem, texts[0]).value]);
          assert forall j :: 0 <= j < |cur.elems| ==> v.elems[j] == cur.elems[j];
        }
        ApplyValuesConforms(k, v, texts[1..]);
    }
  }

  // ----- The pass over the form -----

  /** The parsed form: each name with its values, in the order they came. */
  type Form = map<string, seq<string>>

  function ValuesOf(form: Form, name: string): seq<string> {
    if name in form then form[name] else []
  }

  /** A record together with the error that ended the step producing it. */
  datatype Outcome = Outcome(fields: seq<Field>, err: Option<Error>)

  /** The body of the outer loop for one form name: a name no field is bound
      to is skipped; otherwise its values go to the bound field, and a
      failure is reported prefixed by the name. */
  function ApplyName(keys: map<string, nat>, fields: seq<Field>, form: Form, name: string): (o: Outcome)
    requires KeysIn(keys, |fields|)
    ensures |o.fields| == |fields|
    ensures o.err.Some? ==> name in keys && o.err.value.FieldError? && o.err.value.name == name
    ensures forall j :: 0 <= j < |fields| && (name !in keys || j != keys[name]) ==> o.fields[j] == fields[j]
  {
    if name !in keys then Outcome(fields, None)
    else
      var i := keys[name];
      var a := ApplyValues(fields[i].kind, fields[i].value, ValuesOf(form, name));
      Outcome(fields[i := fields[i].(value := a.value)],
              if a.err.Some? then Some(FieldError(name, a.err.value)) else None)
  }

  /** The outer loop over the form names, in the order `order` gives them;
      it stops at the first failure. */
  function ApplyForm(keys: map<string, nat>, fields: seq<Field>, form: Form, order: seq<string>): (o: Outcome)
    requires KeysIn(keys, |fields|)
    ensures |o.fields| == |fields|
    ensures o.err.Some? ==> o.err.value.FieldError?
    decreases |order|
  {
    if order == [] then Outcome(fields, None)
    else
      var s := ApplyName(keys, fields, form, order[0]);
      if s.err.Some? then s else ApplyForm(keys, s.fields, form, order[1..])
  }

  /** The names of `order` that some field is bound to, in order. */
  function Matched(keys: map<string, nat>, order: seq<string>): (r: seq<string>)
    ensures forall n :: n in r <==> n in order && n in keys
  {
    if order == [] then []
    else if order[0] in keys then [order[0]] + Matched(keys, order[1..])
    else Matched(keys, order[1..])
  }

  /** Form names no field is bound to change nothing and cause no error: the
      pass over all names is the pass over the matched ones. */
  lemma {:induction false} UnmatchedNamesSkipped(keys: map<string, nat>, fields: seq<Field>, form: Form, order: seq<string>)
    requires KeysIn(keys, |fields|)
    ensures ApplyForm(keys, fields, form, order) == ApplyForm(keys, fields, form, Matched(keys, order))
    decreases |order|
  {
    if order != [] {
      var s := ApplyName(keys, fields, form, order[0]);
      if order[0] in keys {
        var m := Matched(keys, order);
        assert m[0] == order[0] && m[1..] == Matched(keys, order[1..]);
        if s.err.None? {
          UnmatchedNamesSkipped(keys, s.fields, form, order[1..]);
        }
      } else {
        UnmatchedNamesSkipped(keys, fields, form, order[1..]);
      }
    }
  }

  /** A failed pass names the form name whose value failed, one a field is bound to. */
  lemma {:induction false} FormErrorNamesField(keys: map<string, nat>, fields: seq<Field>, form: Form, order: seq<string>)
    requires KeysIn(keys, |fields|)
    ensures var o := ApplyForm(keys, fields, form, order);
      o.err.Some? ==> o.err.value.FieldError? && o.err.value.name in order && o.err.value.name in keys
    decreases |order|
  {
    if order != [] {
      var s := ApplyName(keys, fields, form, order[0]);
      if s.err.None? {
        FormErrorNamesField(keys, s.fields, form, order[1..]);
      }
    }
  }

  /** A failed pass stops at the name whose values failed: the names before
      it all bound without error and their writes stay, the outcome is that
      name's step on top of them, and no later name is visited. */
  lemma {:induction false} FormFailureStopsAt(keys: map<string, nat>, fields: seq<Field>, form: Form, order: seq<string>)
    requires KeysIn(keys, |fields|) && ApplyForm(keys, fields, form, order).err.Some?
    ensures exists m :: (0 <= m < |order| &&
      ApplyForm(keys, fields, form, order[..m]).err.None? &&
      ApplyName(keys, ApplyForm(keys, fields, form, order[..m]).fields, form, order[m]) ==
        ApplyForm(keys, fields, form, order))
    decreases |order|
  {
    var s := ApplyName(keys, fields, form, order[0]);
    if s.err.Some? {
      assert order[..0] == [];
      assert ApplyForm(keys, fields, form, order[..0]) == Outcome(fields, None);
    } else {
      FormFailureStopsAt(keys, s.fields, form, order[1..]);
      var m :| 0 <= m < |order[1..]| &&
        ApplyForm(keys, s.fields, form, order[1..][..m]).err.None? &&
        ApplyName(keys, ApplyForm(keys, s.fields, form, order[1..][..m]).fields, form, order[1..][m]) ==
          ApplyForm(keys, s.fields, form, order[1..]);
      var p := order[..m + 1];
      assert p[0] == order[0] && p[1..] == order[1..][..m];
      assert ApplyForm(keys, fields, form, p) == ApplyForm(keys, s.fields, form, order[1..][..m]);
      assert order[m + 1] == order[1..][m];
    }
  }

  /** The pass only writes values: names, tags and kinds stay, and every value
      still fits its field. */
  lemma {:induction false} ApplyFormKeepsShape(keys: map<string, nat>, fields: seq<Field>, form: Form, order: seq<string>)
    requires KeysIn(keys, |fields|)
    ensures SameShape(fields, ApplyForm(keys, fields, form, order).fields)
    ensures WellTyped(fields) ==> WellTyped(ApplyForm(keys, fields, form, order).fields)
    decreases |order|
  {
    if order != [] {
      var n := order[0];
      var s := ApplyName(keys, fields, form, n);
      if n in keys && WellTyped(fields) {
        var i := keys[n];
        ApplyValuesConforms(fields[i].kind, fields[i].value, ValuesOf(form, n));
      }
      assert SameShape(fields, s.fields);
      if s.err.None? {
        ApplyFormKeepsShape(keys, s.fields, form, order[1..]);
      }
    }
  }

  /** What binding one form name does to its field, computed on its own. */
  function FieldPass(keys: map<string, nat>, fields: seq<Field>, form: Form, name: string): Applied
    requires KeysIn(keys, |fields|) && name in keys
  {
    var i := keys[name];
    ApplyValues(fields[i].kind, fields[i].value, ValuesOf(form, name))
  }

  predicate Distinct(order: seq<string>) {
    forall i, j :: 0 <= i < j < |order| ==> order[i] != order[j]
  }

  /** The field indexes the names of `order` are bound to. */
  function Targets(keys: map<string, nat>, order: seq<string>): set<nat> {
    set n | n in order && n in keys :: keys[n]
  }

  /** Since each name is visited once and no two names reach the same field,
      the pass succeeds exactly when every matched name succeeds on its own,
      and it then leaves each bound field as its own name's values made it and
      every other field untouched. Nothing here depends on the order. */
  lemma {:induction false} ApplyFormPerField(keys: map<string, nat>, fields: seq<Field>, form: Form, order: seq<string>)
    requires KeysIn(keys, |fields|) && Injective(keys) && Distinct(order)
    ensures ApplyForm(keys, fields, form, order).err.None? <==>
      forall n :: n in order && n in keys ==> FieldPass(keys, fields, form, n).err.None?
    ensures ApplyForm(keys, fields, form, order).err.None? ==>
      forall n :: n in order && n in keys ==>
        ApplyForm(keys, fields, form, order).fields[keys[n]] ==
        fields[keys[n]].(value := FieldPass(keys, fields, form, n).value)
    ensures ApplyForm(keys, fields, form, order).err.None? ==>
      forall i :: 0 <= i < |fields| && i !in Targets(keys, order) ==>
        ApplyForm(keys, fields, form, order).fields[i] == fields[i]
    decreases |order|
  {
    if order != [] {
      var n := order[0];
      var rest := order[1..];
      DistinctTail(order);
      if n !in keys {
        ApplyFormPerField(keys, fields, form, rest);
        assert Targets(keys, order) == Targets(keys, rest);
      } else {
        var s := ApplyName(keys, fields, form, n);
        if s.err.None? {
          ApplyFormPerField(keys, s.fields, form, rest);
          OtherNamesUnaffected(keys, fields, form, n, rest);
          assert Targets(keys, order) == Targets(keys, rest) + {keys[n]};
        }
      }
    }
  }

  lemma DistinctTail(order: seq<string>)
    requires order != [] && Distinct(order)
    ensures Distinct(order[1..]) && order[0] !in order[1..]
    ensures forall m :: m in order <==> m == order[0] || m in order[1..]
  {
    var rest := order[1..];
    forall j | 0 <= j < |rest| ensures rest[j] != order[0] {
      assert rest[j] == order[j + 1];
    }
    forall i, j | 0 <= i < j < |rest| ensures rest[i] != rest[j] {
      assert rest[i] == order[i + 1] && rest[j] == order[j + 1];
    }
    assert order == [order[0]] + rest;
  }

  /** Binding one name leaves every other name's field, and so what binding
      that name would do, as it was. */
  lemma OtherNamesUnaffected(keys: map<string, nat>, fields: seq<Field>, form: Form, n: string, rest: seq<string>)
    requires KeysIn(keys, |fields|) && Injective(keys) && n in keys && n !in rest
    ensures var s := ApplyName(keys, fields, form, n);
      && keys[n] !in Targets(keys, rest)
      && forall m :: m in rest && m in keys ==> FieldPass(keys, s.fields, form, m) == FieldPass(keys, fields, form, m)
  {
    var s := ApplyName(keys, fields, form, n);
    forall m | m in rest && m in keys
      ensures FieldPass(keys, s.fields, form, m) == FieldPass(keys, fields, form, m)
    {
      assert keys[m] != keys[n];
      assert s.fields[keys[m]] == fields[keys[m]];
    }
  }

  /** Any two orders of the same form names give the same verdict, and on
      success the same record: Go's random map order is invisible then. */
  lemma FormOrderIrrelevant(keys: map<string, nat>, fields: seq<Field>, form: Form, o1: seq<string>, o2: seq<string>)
    requires KeysIn(keys, |fields|) && Injective(keys) && Distinct(o1) && Distinct(o2)
    requires forall n :: n in o1 <==> n in o2
    ensures ApplyForm(keys, fields, form, o1).err.None? <==> ApplyForm(keys, fields, form, o2).err.None?
    ensures ApplyForm(keys, fields, form, o1).err.None? ==>
      ApplyForm(keys, fields, form, o1).fields == ApplyForm(keys, fields, form, o2).fields
  {
    ApplyFormPerField(keys, fields, form, o1);
    ApplyFormPerField(keys, fields, form, o2);
    var r1 := ApplyForm(keys, fields, form, o1);
    var r2 := ApplyForm(keys, fields, form, o2);
    assert Targets(keys, o1) == Targets(keys, o2);
    if r1.err.None? {
      forall i | 0 <= i < |fields| ensures r1.fields[i] == r2.fields[i] {
        if i in Targets(keys, o1) {
          var n :| n in o1 && n in keys && keys[n] == i;
        }
      }
    }
  }

  // ----- The body and the whole of Unpack -----

  newtype byte = b: int | 0 <= b < 256

  /** The request body: absent (nil), failing to read, or the bytes read. */
  datatype Body = NilBody | Unreadable(readError: Error) | Content(bytes: seq<byte>)

  /** A request as Unpack sees it: the outcome of `ParseForm` and the body. */
  datatype Request = Request(form: Result<Form>, body: Body)

  /** json.Unmarshal of a body onto the record: the record it leaves and its error. */
  type Decoder = (seq<byte>, seq<Field>) -> Outcome

  /** unpackJSONParams: a nil body is an error, a body that cannot be read
      reports the read error, an empty body changes nothing, and any other
      body is decoded onto the record. */
  function ReadBody(body: Body, fields: seq<Field>, decode: Decoder): (o: Outcome)
    ensures o.err.None? ==> body.Content?
    ensures !(body.Content? && |body.bytes| > 0) ==> o.fields == fields
  {
    match body
    case NilBody => Outcome(fields, Some(BodyMissing))
    case Unreadable(e) => Outcome(fields, Some(e))
    case Content(bytes) => if |bytes| > 0 then decode(bytes, fields) else Outcome(fields, None)
  }

  /** Unpack: a form that does not parse stops it; otherwise the form pass,
      then, if that succeeded, the body on top of what the form left. */
  function UnpackOutcome(req: Request, fields: seq<Field>, order: seq<string>, decode: Decoder): (o: Outcome)
    ensures o.err.None? ==> req.form.Ok? && req.body.Content?
  {
    match req.form
    case Err(e) => Outcome(fields, Some(e))
    case Ok(form) =>
      var s := ApplyForm(KeyMapOf(fields), fields, form, order);
      if s.err.Some? then s else ReadBody(req.body, s.fields, decode)
  }

  /** `order` lists every form name exactly once, as ranging over a Go map does. */
  ghost predicate IsIterationOrder(order: seq<string>, form: Form) {
    Distinct(order) && forall n :: n in order <==> n in form
  }

  /** A form failure ends Unpack before the body is looked at: the outcome is
      the same whatever the body, and the error is the form's. */
  lemma FormErrorPreemptsBody(req: Request, fields: seq<Field>, order: seq<string>, decode: Decoder, other: Body)
    requires req.form.Ok?
    requires ApplyForm(KeyMapOf(fields), fields, req.form.value, order).err.Some?
    ensures UnpackOutcome(req, fields, order, decode) == UnpackOutcome(req.(body := other), fields, order, decode)
    ensures UnpackOutcome(req, fields, order, decode).err.value.FieldError?
  {
    KeyMapInjective(fields);
    FormErrorNamesField(KeyMapOf(fields), fields, req.form.value, order);
  }

  /** After a successful form pass: a nil body fails Unpack but the form's
      values stay bound, an empty body leaves the form's result as it is, and
      a non-empty body is decoded onto the form's result. */
  lemma BodyAfterForm(req: Request, fields: seq<Field>, order: seq<string>, decode: Decoder)
    requires req.form.Ok?
    requires ApplyForm(KeyMapOf(fields), fields, req.form.value, order).err.None?
    ensures var formed := ApplyForm(KeyMapOf(fields), fields, req.form.value, order).fields;
      var o := UnpackOutcome(req, fields, order, decode);
      && (req.body == NilBody ==> o == Outcome(formed, Some(BodyMissing)))
      && (req.body == Content([]) ==> o == Outcome(formed, None))
      && (req.body.Content? && |req.body.bytes| > 0 ==> o == decode(req.body.bytes, formed))
  {
  }

  /** The body sets exactly the fields in `present` to the given values and
      leaves the rest alone, as a JSON object naming those fields does. */
  ghost predicate SetsFields(decode: Decoder, bytes: seq<byte>, present: map<nat, Value>) {
    forall fs: seq<Field> ::
      var o := decode(bytes, fs);
      o.err.None? && |o.fields| == |fs| &&
      forall i :: 0 <= i < |fs| ==> o.fields[i].value == (if i in present then present[i] else fs[i].value)
  }

  /** Body values override form values: a field the body sets ends with the
      body's value whatever the form said, and a field the body leaves alone
      ends with the form's value. */
  lemma BodyOverridesForm(req: Request, fields: seq<Field>, order: seq<string>, decode: Decoder, present: map<nat, Value>)
    requires req.form.Ok? && req.body.Content? && |req.body.bytes| > 0
    requires SetsFields(decode, req.body.bytes, present)
    requires ApplyForm(KeyMapOf(fields), fields, req.form.value, order).err.None?
    ensures var o := UnpackOutcome(req, fields, order, decode);
      var formed := ApplyForm(KeyMapOf(fields), fields, req.form.value, order).fields;
      && o.err.None? && |o.fields| == |fields|
      && (forall i :: i in present && i < |fields| ==> o.fields[i].value == present[i])
      && (forall i :: 0 <= i < |fields| && i !in present ==> o.fields[i].value == formed[i].value)
  {
    KeyMapInjective(fields);
    var formed := ApplyForm(KeyMapOf(fields), fields, req.form.value, order).fields;
    var o := decode(req.body.bytes, formed);
    assert o.err.None? && |o.fields| == |formed|;
  }

  /** Unpack's outcome does not depend on the order Go visits the form names
      in: every order agrees on success, and once the form pass succeeds the
      whole outcome is the same. */
  lemma UnpackOrderIrrelevant(req: Request, fields: seq<Field>, o1: seq<string>, o2: seq<string>, decode: Decoder)
    requires req.form.Ok?
    requires IsIterationOrder(o1, req.form.value) && IsIterationOrder(o2, req.form.value)
    ensures UnpackOutcome(req, fields, o1, decode).err.None? <==> UnpackOutcome(req, fields, o2, decode).err.None?
    ensures ApplyForm(KeyMapOf(fields), fields, req.form.value, o1).err.None? ==>
      UnpackOutcome(req, fields, o1, decode) == UnpackOutcome(req, fields, o2, decode)
  {
    KeyMapInjective(fields);
    FormOrderIrrelevant(KeyMapOf(fields), fields, req.form.value, o1, o2);
  }
}
