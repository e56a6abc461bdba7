/** The request-parameter binder as the Go code runs it: an `Unpacker` holding
    the request and the struct it fills, whose `Unpack` builds the key map,
    walks the form values and then reads the body, writing the struct's fields
    in place. Each method is proved to compute what `Binding` specifies. */
module Receiver {
  import opened Errors
  import opened Binding

  /** The struct the receiver pointer points to; its fields change in place. */
  class Struct {
    var fields: seq<Field>

    constructor (fields: seq<Field>)
      ensures this.fields == fields
    {
      this.fields := fields;
    }
  }

  /** The request parameter parser. The logger it also holds only records
      observations and is not modelled. */
  class Unpacker {
    const req: Request
    const receiver: Struct

    /** NewUnpacker */
    constructor (req: Request, receiver: Struct)
      ensures this.req == req && this.receiver == receiver
    {
      this.req := req;
      this.receiver := receiver;
    }

    /** Unpack: `order` is the order in which ranging over the parsed form
        visits its names; `decode` is json.Unmarshal. */
    method Unpack(order: seq<string>, decode: Decoder) returns (err: Option<Error>)
      requires req.form.Ok? ==> IsIterationOrder(order, req.form.value)
      modifies receiver
      ensures receiver.fields == UnpackOutcome(req, old(receiver.fields), order, decode).fields
      ensures err == UnpackOutcome(req, old(receiver.fields), order, decode).err
    {
      if req.form.Err? {
        return Some(req.form.error);
      }
      var form := req.form.value;

      var fields := KeyMap();
      KeyMapInjective(receiver.fields);

      // Bind the form values, name by name.
      ghost var start := receiver.fields;
      var k := 0;
      while k < |order|
        invariant 0 <= k <= |order|
        invariant |receiver.fields| == |start|
        invariant ApplyForm(fields, start, form, order) == ApplyForm(fields, receiver.fields, form, order[k..])
      {
        var name := order[k];
        assert name in order;
        if name in fields {
          err := BindValues(fields, form, name);
          if err.Some? {
            return;
          }
        }
        assert order[k..][1..] == order[k + 1..];
        k := k + 1;
      }

      err := UnpackJsonParams(decode);
    }

    /** The loop that maps every binding key to its field: a later field
        with the same key replaces an earlier one. */
    method KeyMap() returns (fields: map<string, nat>)
      ensures fields == KeyMapOf(receiver.fields)
    {
      var all := receiver.fields;
      fields := map[];
      var i := 0;
      while i < |all|
        invariant 0 <= i <= |all|
        invariant fields == KeyMapOf(all[..i])
      {
        assert all[..i + 1][..i] == all[..i];
        fields := fields[BindingKey(all[i]) := i];
        i := i + 1;
      }
      assert all[..i] == all;
    }

    /** The inner loop of Unpack for the form name `name`: each value is coerced into the bound field, appended when
        the field is a slice and overwriting it otherwise; the first failure
        returns, prefixed by the name, and keeps what was written before. */
    method BindValues(fields: map<string, nat>, form: Form, name: string) returns (err: Option<Error>)
      requires name in fields && name in form && KeysIn(fields, |receiver.fields|)
      modifies receiver
      ensures Outcome(receiver.fields, err) == ApplyName(fields, old(receiver.fields), form, name)
    {
      ghost var before := receiver.fields;
      var idx := fields[name];
      var values := form[name];
      var j := 0;
      while j < |values|
        invariant 0 <= j <= |values|
        invariant |receiver.fields| == |before|
        invariant receiver.fields == before[idx := before[idx].(value := receiver.fields[idx].value)]
        invariant ApplyValues(before[idx].kind, before[idx].value, values) ==
                  ApplyValues(before[idx].kind, receiver.fields[idx].value, values[j..])
      {
        var f := receiver.fields[idx];
        if f.kind.Slice? {
          var elem := Coerce(f.kind.elem, values[j]);
          if elem.Err? {
            return Some(FieldError(name, elem.error));
          }
          receiver.fields := receiver.fields[idx := f.(value := SliceVal(Elems(f.value) + [elem.value]))];
        } else {
          var v := Coerce(f.kind, values[j]);
          if v.Err? {
            return Some(FieldError(name, v.error));
          }
          receiver.fields := receiver.fields[idx := f.(value := v.value)];
        }
        assert values[j..][1..] == values[j + 1..];
        j := j + 1;
      }
      return None;
    }

    /** unpackJSONParams: the body step, on top of whatever the struct holds. */
    method UnpackJsonParams(decode: Decoder) returns (err: Option<Error>)
      modifies receiver
      ensures receiver.fields == ReadBody(req.body, old(receiver.fields), decode).fields
      ensures err == ReadBody(req.body, old(receiver.fields), decode).err
    {
      match req.body
      case NilBody =>
        err := Some(BodyMissing);
      case Unreadable(e) =>
        err := Some(e);
      case Content(bytes) =>
        if |bytes| > 0 {
          var o := decode(bytes, receiver.fields);
          receiver.fields := o.fields;
          err := o.err;
        } else {
          err := None;
        }
    }
  }

  /** stringSliceContent: whether `str` is one of `strs`. */
  method StringSliceContent(strs: seq<string>, str: string) returns (found: bool)
    ensures found <==> str in strs
  {
    for i := 0 to |strs|
      invariant str !in strs[..i]
    {
      if strs[i] == str {
        return true;
      }
    }
    return false;
  }
}
