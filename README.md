# NamUs-Suite state discovery: the `get_states` response check

The crawler starts by asking the NamUs API for the list of US states and
then fans out one search per state. The only decision logic on that path is
in `get_states` (src/main.rs:17-42): once the HTTP body has been decoded into
a `serde_json::Value`, it rejects anything that is not a JSON array, walks
the array in order, rejects the whole response at the first element whose
`name` is missing or not a string, and otherwise returns the names in
element order, each turned into text with `Value::to_string`.

This project models that check in Dafny:

- `json_value.dfy`, module `JsonValue`: the decoded value as a `Json`
  datatype (`Null`, `Bool`, `Num`, `Str`, `Arr`, `Obj`), `Get` for
  `Value::get` with a string key (None for every non-object) and `AsStr`
  for `Value::as_str`.
- `states.dfy`, module `States`: the two errors of `get_states`
  (`InvalidResponse`, `MissingOrInvalidName`), a `Result` whose error case
  carries no list, the fold `CollectNames` and the function `GetStatesSpec`
  that specify the loop, the method `GetStates` with the loop itself, and
  the lemmas below.

`Value::to_string` is library code whose output is not modelled: it is the
parameter `render: Json -> string` of `GetStates` and `GetStatesSpec`, so
every property holds whatever the renderer is. Where a property needs what
`to_string` does with a string, the lemma assumes only the plain case as a
precondition (`QuotesPlainStrings`: a string with no double quote, no backslash and
no character below U+0020 is written between double quotes).

## Model

| member | source | states |
|---|---|---|
| `States.AcceptedIffNamedObjects` | src/main.rs:30-34 | An array is accepted exactly when every element is an object holding a `name` key whose value is a string. This is the meaning of the two definitions without a contract of their own: `JsonValue.Get` (`Value::get("name")`, which finds nothing in any non-object, arrays included) and `States.HasStringName` (the test on line 34). |
| `States.CollectNames` | src/main.rs:29-40 | The loop as a fold over prefixes: it only ever fails with `MissingOrInvalidName`, and on success holds one name per element. Its full meaning is `CollectNamesMeaning`. |
| `States.GetStatesSpec` | src/main.rs:24-41 | The whole check as a function: `InvalidResponse` exactly for a non-array, one name per element on success. Its full meaning is `GetStatesSpecMeaning`. |
| `States.GetStates` | src/main.rs:17-41 | The loop agrees with `GetStatesSpec`; the result is an error exactly when the response is not an array or some element's `name` is missing or not a string; it is `InvalidResponse` exactly for a non-array; on success it has one entry per element and entry i is the rendered `name` of element i (`States.NameOf` picks that value out). The loop invariant says that after i elements the accumulator is exactly the rendered names of the first i elements. |
| `States.CollectNamesMeaning` | src/main.rs:29-40 | The per-element walk fails exactly when some element lacks a string name, fails only with `MissingOrInvalidName`, and on success has one rendered name per element, in element order. |
| `States.GetStatesSpecMeaning` | src/main.rs:24-41 | Closed form of the whole check: error iff not an array or some bad name; `InvalidResponse` iff not an array; otherwise length equals the number of elements and position i is element i's rendered name. |
| `States.RejectionSticks` | src/main.rs:34-36 | Once a prefix of the array is rejected, the whole array is rejected with the same error: the early return is final and no later element can undo it. |
| `States.NotArrayRejected` | src/main.rs:24-27 | A response that is not an array yields `InvalidResponse` and no names. |
| `States.MissingNameRejected` | src/main.rs:30-36 | An element with no `name` key, or that is not an object at all, anywhere in the array, makes the result `MissingOrInvalidName`. |
| `States.NonStringNameRejected` | src/main.rs:34-36 | An element whose `name` exists but is not a string, anywhere in the array, makes the result `MissingOrInvalidName`. |
| `States.AcceptedExtends` | src/main.rs:39 | Appending a well-named element to an accepted array appends exactly its rendered name and leaves the earlier names and their order unchanged. |
| `States.EmptyArrayAccepted` | src/main.rs:29-41 | An empty array is accepted with an empty list of names. |
| `States.RenderedNamesKeepQuotes` | src/main.rs:39 | As written: for an accepted response and a renderer that quotes plain strings, every name that has nothing to escape comes back as the state's own name between double quotes, and so differs from it, whatever the other names are. |
| `States.AlaskaKeepsQuotes` | src/main.rs:39 | As written: the response `[{"name": "Alaska"}]` yields the text `"Alaska"` with its quotes, not `Alaska`. |
| `States.StateNames` | src/main.rs:29-39 | Corrected: same acceptance as `get_states`, `InvalidResponse` exactly for a non-array, and on success entry i is exactly the string value of element i's `name`, taken out by `JsonValue.AsStr` in place of `to_string`. |
| `States.QuotedAgainstCorrected` | src/main.rs:39 | For every response, the code as written and the corrected version reject the same responses with the same error; on an accepted one, each written entry whose name has nothing to escape is the corrected entry between double quotes. |

## Findings

| source | as written | input that shows it | evidently intended | confidence | as-written member | corrected member |
|---|---|---|---|---|---|---|
| src/main.rs:39 | `state_name.unwrap().to_string()` renders the JSON value, so a string name keeps its surrounding double quotes | `[{"name": "Alaska"}]` gives `"Alaska"` (eight characters with the quotes) | the bare name, as `as_str` gives it (the comment on lines 32-33 speaks of `as_string`) | medium; not executed | `States.AlaskaKeepsQuotes`, `States.RenderedNamesKeepQuotes` | `States.StateNames` |

`GetStates` is generic in the renderer, so the corrected behaviour is the
same method called with `JsonValue.AsStr`; `StateNames` is its
specification, and `QuotedAgainstCorrected` relates the two.

## Left out

- The HTTP request and the `.json()` decoding (src/main.rs:19-22): network I/O in a foreign library; the model takes the decoded value as its input, so the transport and decoding errors that `?` propagates are not modelled.
- The exact text of `serde_json::Value::to_string`: library behaviour; it is the `render` parameter, and only its plain-string case is ever assumed, as a precondition.
- `main`'s `for_each_concurrent` fan-out over the states with `PARALLEL_REQUESTS` (src/main.rs:44-55): its point is concurrency, and its `.unwrap()` panics are runtime behaviour.
- `_get_case` and `get_cases_by_state` (src/main.rs:8-15): stubs with no logic apart from printing.
- The `debug!` logging (src/main.rs:25, 35): a side effect that does not change the result.
- Which element caused a rejection: the source only logs it, and the returned error does not say, so the model's error carries no index either.
- JSON numbers as floating point: they are reals in the model, and nothing in the check looks at them.
