# easyhttp request binder and mouthpiece, in Dafny

This project models the core of the Go package `easyhttp`.

- **The request-parameter binder.** `Unpacker.Unpack` fills the top-level fields of a struct from a parsed request. It maps each field to a binding key: the field's `http` tag, or its lower-cased Go name when the tag is empty. Then it walks the form names in Go's map order. Each value of a matching name is coerced by `populate`: appended for a slice field, overwriting any other field. Last, if the form pass succeeded, a non-empty body is decoded onto the struct (a nil body is an error, an empty one changes nothing).
- **`populate`'s coercion.** A `string` field takes the text as it is. An `int` field takes `strconv.ParseInt(text, 10, 64)`. A `bool` field takes `strconv.ParseBool(text)`. Every other kind is an "unsupported http value type" error.
- **The `Mouthpiece` response helper.** It records an error. `Convey` turns that error into a status and message and hands the result to `Response`.

Modules:

- `Errors` (errors.dfy): the errors involved and the text their `Error()` methods give.
- `Strconv` (strconv.dfy): the two parsers, written as Go computes them and proved equal to declarative descriptions.
- `Binding` (binding.dfy): what `Unpack` computes, as functions on the field sequence, with the lemmas about key derivation, accumulation, precedence and error behaviour.
- `Receiver` (receiver.dfy): the `Unpacker` class. Its methods update the receiver struct in place and are proved to compute what `Binding` specifies.
- `Mouthpieces` (mouthpiece.dfy): the `Mouthpiece` class.

Behaviour of the code worth noting:

- The body is decoded after the form values, so body values override form values.
- A nil body is always an error.
- An empty form value is coerced like any other value, not skipped.
- Unpack reads only the parsed form and the body.
- Only top-level fields are bound; nested or pointer structs are not entered.
- No floats are coerced.
- A nil receiver panics.

Inputs the Go code gets from its environment are parameters here:

- The order in which ranging over the form map visits names is `order`. Every order-dependent result is stated for all orders, and `FormOrderIrrelevant` / `UnpackOrderIrrelevant` prove that a successful pass does not depend on it.
- `json.Unmarshal` is the function parameter `decode`.
- `Response` is the function parameter `respond`.
- The result of `req.ParseForm()` is the `form` component of the request.

## Model

| member | source | states |
|---|---|---|
| `Errors.Text` | receiver.go:59 | the `Error()` text of each error the binder returns: a name-prefixed error reads `name + ": "` followed by the inner error's text (the `fmt.Errorf("%s: %v")` at receiver.go:59 and 65), and a NumError reads `strconv.` followed by the function name, the quoted text and the cause |
| `Strconv.ScanDigits` | receiver.go:82 | ParseUint's base-10 digit loop from a position and accumulator: a syntax stop at a non-digit, an overflow stop at the first digit that takes the accumulator past 64 bits, otherwise the value; a scan never yields less than its accumulator, nor more than 64 bits from an accumulator that fits |
| `Strconv.ParseInt` | receiver.go:82 | ParseInt(s, 10, 64): one optional sign, the digit loop, then the int64 range check; every value it yields fits int64, and every failure is a ParseInt NumError carrying the whole text |
| `Strconv.ParseIntSpec` | receiver.go:81-86 | `ParseInt(s, 10, 64)` succeeds exactly for an optional sign followed by one or more decimal digits whose value lies in int64, and yields that value; a failure is a `ParseInt` NumError carrying `s`, a range error exactly when the digits before the first non-digit exceed 64 bits or the decimal value leaves int64, and a syntax error otherwise |
| `Strconv.ScanDigitsSpec` | receiver.go:82 | ParseUint's digit loop ends with the value exactly for digit strings that fit 64 bits unsigned, and with overflow exactly when the digits before the first non-digit exceed 64 bits |
| `Strconv.ParseIntFormatInt` | receiver.go:82 | every int64 value has a decimal text (`FormatInt`) that ParseInt reads back to that value |
| `Strconv.ParseBool` | receiver.go:88-93 | ParseBool accepts exactly the twelve literals 1 t T TRUE true True 0 f F FALSE false False, reads true exactly for the first six, and reports a `ParseBool` syntax error for any other text |
| `Binding.ToLower` | receiver.go:39 | strings.ToLower on the Go field name: the result has the name's length and no ASCII upper-case letter |
| `Binding.ToLowerSpec` | receiver.go:39 | lower-casing a field name keeps its length, leaves no ASCII upper-case letter, changes only upper-case letters, and is idempotent |
| `Binding.BindingKey` | receiver.go:36-40 | a field's binding key is its `http` tag when it has one, and otherwise its Go name lower-cased: same length, no ASCII upper-case letter left |
| `Binding.KeyMapOf` | receiver.go:32-42 | every key in the map points at a field of the record whose binding key (tag, or lower-cased name when the tag is empty) is that key |
| `Binding.KeyMapHasEveryKey` | receiver.go:34-41 | every field's binding key is in the map, bound to that field or a later one |
| `Binding.KeyMapBindsLastField` | receiver.go:34-42 | a key is bound exactly when some field derives it, and it is bound to the last field deriving it, since later entries overwrite earlier ones |
| `Binding.UntaggedFieldKey` | receiver.go:37-40 | a field without `http` tag is reached only by its lower-cased Go name, a name containing no ASCII upper-case letter |
| `Binding.KeyMapInjective` | receiver.go:41 | no two keys are bound to the same field, and all bound indexes are fields of the record |
| `Binding.Coerce` | receiver.go:76-99 | populate's switch on the field kind: a string field takes any text, and whatever it stores fits the field's kind |
| `Binding.CoerceSpec` | receiver.go:76-99 | populate accepts every text for a string field and stores it verbatim, accepts for an int field exactly what ParseInt accepts and stores its value, accepts for a bool field exactly the ParseBool literals, returns ParseInt's or ParseBool's error otherwise, rejects every other kind (int64, uints, floats, slices of slices, ...) with "unsupported http value type" naming the type, and what it stores always fits the field |
| `Binding.ApplyValue` | receiver.go:56-66 | one value of the inner loop: a slice field succeeds exactly when the value coerces to the element kind, and then holds its old elements with that one appended; any other field is overwritten by populate's result for the value, whatever it held |
| `Binding.ApplyValues` | receiver.go:55-67 | the inner loop over one name's values, stopping at the first failure with the value reached so far; a failure needs at least one value, and a slice field only ever gains elements after the ones it had |
| `Binding.ValuesSucceedIffAllCoerce` | receiver.go:55-67 | the values of one form name bind without error exactly when each of them is accepted for the field's kind (the element kind for a slice field) |
| `Binding.CoercedElemsInOrder` | receiver.go:55-58 | when every value coerces, the coerced elements are one per value, each the value's coercion, in value order |
| `Binding.SliceFieldAppends` | receiver.go:56-61 | a slice field keeps the elements it had and gets the coerced values appended after them, one element per value |
| `Binding.ScalarFieldKeepsLast` | receiver.go:63-67 | a non-slice field ends holding the coercion of the last value, and is untouched when there are no values |
| `Binding.FailureKeepsEarlierValues` | receiver.go:55-67 | on a coercion failure the field keeps exactly what the values before the failing one made of it (no rollback), and the failing value changes nothing |
| `Binding.ApplyValuesConforms` | receiver.go:55-67 | binding values never gives a field a value its kind cannot hold |
| `Binding.ApplyName` | receiver.go:46-68 | one round of the outer loop: a name bound to no field changes nothing; otherwise only the bound field changes, and any error is a FieldError prefixed by that name |
| `Binding.ApplyForm` | receiver.go:45-69 | the outer loop over the form names in iteration order, stopping at the first failure; the record keeps its length and every error is a name-prefixed FieldError |
| `Binding.UnmatchedNamesSkipped` | receiver.go:45-49 | form names that match no field change nothing and cause no error: the pass over all names equals the pass over the matched names alone |
| `Binding.FormErrorNamesField` | receiver.go:58-59 | a failed form pass reports a FieldError prefixed by a form name that was visited and is bound to a field |
| `Binding.FormFailureStopsAt` | receiver.go:45-69 | a failed form pass stops at the name whose value failed: every name before it bound without error and its writes stay, the outcome is that name's round on top of them, and no later name is visited |
| `Binding.ApplyFormKeepsShape` | receiver.go:45-69 | the form pass changes only field values, never names, tags or kinds, and keeps every value well typed |
| `Binding.ApplyFormPerField` | receiver.go:45-69 | the form pass succeeds exactly when every matched name's values bind on their own; each bound field then holds what its own name's values made of it, and every other field is untouched |
| `Binding.OtherNamesUnaffected` | receiver.go:46-67 | binding one name touches only its own field, so what any other name would do is unchanged |
| `Binding.FormOrderIrrelevant` | receiver.go:45 | any two iteration orders of the same form names agree on success, and on success produce the same record |
| `Binding.ReadBody` | receiver.go:101-124 | unpackJSONParams on the record: only a readable body can end without error, and only a non-empty body can change the record |
| `Binding.UnpackOutcome` | receiver.go:26-74 | Unpack: a ParseForm error stops it, otherwise the form pass and, when it succeeded, the body step on top; success needs a parsed form and a readable body |
| `Binding.FormErrorPreemptsBody` | receiver.go:58-73 | a form failure ends Unpack before the body is read: the outcome is the same whatever the body, and the error is the form's FieldError |
| `Binding.BodyAfterForm` | receiver.go:101-123 | after a successful form pass, a nil body fails with "request body 为空" while the form's bindings stay, a zero-length body leaves the form's result with no error, and a non-empty body is decoded onto the form's result |
| `Binding.BodyOverridesForm` | receiver.go:73 | a field the body sets ends with the body's value whatever the form said, and a field the body leaves alone keeps the form's value |
| `Binding.UnpackOrderIrrelevant` | receiver.go:26-74 | Unpack succeeds for one iteration order of the form exactly when it succeeds for any other, and once the form pass succeeds the whole outcome is the same for every order |
| `Receiver.Unpacker.constructor` | receiver.go:14-23 | NewUnpacker stores the request and the receiver it is given |
| `Receiver.Unpacker.Unpack` | receiver.go:26-74 | a ParseForm error is returned as is; otherwise the receiver's fields and the error returned are exactly the form pass followed, if it succeeded, by the body step |
| `Receiver.Unpacker.KeyMap` | receiver.go:32-42 | the key-map loop builds exactly the key map of the receiver's fields |
| `Receiver.Unpacker.BindValues` | receiver.go:46-68 | the inner loop for one bound name leaves the receiver and returns the error exactly as binding that name's values specifies |
| `Receiver.Unpacker.UnpackJsonParams` | receiver.go:101-124 | a nil body returns "request body 为空" and changes nothing, a read error is returned as is, an empty body changes nothing, and any other body is decoded onto the receiver |
| `Receiver.StringSliceContent` | receiver.go:126-134 | returns true exactly when the string occurs in the slice |
| `Mouthpieces.Mouthpiece.constructor` | mouthpiece.go:20-25 | a new mouthpiece has status -1, no error, an empty message and no data |
| `Mouthpieces.Mouthpiece.SetError` | mouthpiece.go:28-30 | records the error and changes no other field |
| `Mouthpieces.Mouthpiece.Convey` | mouthpiece.go:33-44 | with an error, status becomes -1 and message the error's text; without one, status becomes 0 and the message is kept; the error and data are never modified; the result is exactly Response's error for the envelope of message, status and data |
| `Mouthpieces.Conveyed` | mouthpiece.go:34-40 | the fields Convey leaves: the message becomes the error's text when there is an error and is kept otherwise |
| `Mouthpieces.ConveyedStatus` | mouthpiece.go:34-40 | after Convey the status is -1 exactly when an error was set and 0 otherwise, and the error and data are as they were |
| `Mouthpieces.ConveyIdempotent` | mouthpiece.go:33-41 | conveying twice with the same error leaves the same status and message as conveying once |
| `Mouthpieces.StaleMessageSurvives` | mouthpiece.go:38-40 | clearing the error after it has been conveyed and conveying again gives status 0 with the old error's text still as message |

## Left out

- sender.go (the outbound GET/POST sender) is not part of this model. It is a thin wrapper over Go's HTTP client and JSON library.
- JSON decoding of the body (receiver.go:120) is the opaque parameter `decode`. It may change any field and return any error.
- `Response` (mouthpiece.go:47-58) is the opaque parameter `respond`. It covers marshalling, the `strconv.Unquote` step and the write. From reading `strconv.Unquote`, a bare double quote inside the wrapped text makes it fail. Every marshalled mouthpiece begins `{"message"`, so as written `Response` would write an empty body. This is not modelled, since `respond` is opaque.
- Form and query parsing (`req.ParseForm`, receiver.go:27) is not modelled. Its result is an input: either the parsed form or its error.
- Form and body are independent inputs, which over-approximates the code. `ParseForm` consumes an application/x-www-form-urlencoded body, so such a request reaches unpackJSONParams with zero bytes. `BodyOverridesForm` is therefore about query values against a JSON body.
- Reading the body is an input: the body is nil, unreadable with an error, or its bytes. `ioutil.ReadAll`'s partial reads and closing the body are not modelled.
- Reflection is replaced by an explicit sequence of fields (name, `http` tag value, kind, value). `StructTag.Get` parsing is not modelled.
- Panics are not modelled, and the model assumes none happens. These are: a nil request, since `ParseForm` dereferences it; a receiver that is not a pointer to a struct; and setting an unexported field. Because a nil request panics first, the nil-request test in unpackJSONParams can never return, so the request is never nil here.
- Unpacker.Unpack: the model covers one `Unpack` per Unpacker. `req` is a constant, so a second call would see the same body bytes again; in Go the first call reads the body to its end and closes it (receiver.go:107, 110), and a second one reads zero bytes or gets a read error. Slices are values in the model as well: `reflect.Append` (receiver.go:61) may write into a backing array the caller shares with another slice, and that aliasing is not modelled.
- Logger calls (receiver.go:51-53, 115-117) only record observations and are left out.
- Binding.ToLowerSpec / Binding.ToLower: lower-cases ASCII letters only, and states that every other character is unchanged; `strings.ToLower` also lower-cases non-ASCII letters (É becomes é), which is not modelled.
- Errors.Text: quotes the rejected text in plain double quotes; the escaping `strconv.Quote` applies to special characters is not modelled.
- Binding.TypeName: names kinds by their built-in Go spelling; named types (`[]pkg.MyType`) print by their declared name in Go.
- Go's `int` is taken as 64 bits, the width `ParseInt(…, 10, 64)` produces; on a 32-bit platform `SetInt` would truncate.
- The Unpacker's logger field is not modelled.
