/** The shape check that `get_states` applies to the decoded list of states. */
module States {
  import opened JsonValue

  /** The two errors `get_states` raises once the body has been decoded. */
  datatype Error = InvalidResponse | MissingOrInvalidName

  /** An error carries no list, so a rejected response never comes with
      the names gathered before the bad element. */
  datatype Result<T> = Ok(value: T) | Err(error: Error)

  /** The test of `get_states` on one element: it has a `name` key whose
      value is a JSON string. Only an object can pass. */
  predicate HasStringName(v: Json)
  {
    Get(v, "name").Some? && Get(v, "name").value.Str?
  }

  /** The `name` value of an element, or Null when there is none. */
  function NameOf(v: Json): (r: Json)
  {
    if Get(v, "name").Some? then Get(v, "name").value else Null
  }

  /** Some element of the array lacks a string-valued `name`. */
  predicate SomeBadName(elems: seq<Json>)
  {
    exists i :: 0 <= i < |elems| && !HasStringName(elems[i])
  }

  /** The loop of `get_states` as a fold over a prefix of the elements:
      the names of the prefix, each passed through `render`, or the
      error at the first element without a string name. */
  function CollectNames(elems: seq<Json>, render: Json -> string): (r: Result<seq<string>>)
    ensures r.Err? ==> r.error == MissingOrInvalidName
    ensures r.Ok? ==> |r.value| == |elems|
    decreases |elems|
  {
    if elems == [] then Ok([])
    else
      match CollectNames(elems[..|elems| - 1], render)
      case Err(e) => Err(e)
      case Ok(names) =>
        var last := elems[|elems| - 1];
        if HasStringName(last) then Ok(names + [render(NameOf(last))])
        else Err(MissingOrInvalidName)
  }

  /** What `get_states` returns for the decoded response `resp`. */
  function GetStatesSpec(resp: Json, render: Json -> string): (r: Result<seq<string>>)
    ensures r == Err(InvalidResponse) <==> !resp.Arr?
    ensures r.Ok? ==> resp.Arr? && |r.value| == |resp.elems|
  {
    if !resp.Arr? then Err(InvalidResponse) else CollectNames(resp.elems, render)
  }

  /** The fold fails exactly when some element lacks a string name, the only
      error it raises is MissingOrInvalidName, and on success it holds one
      rendered name per element, in element order. */
  lemma {:induction false} CollectNamesMeaning(elems: seq<Json>, render: Json -> string)
    ensures CollectNames(elems, render).Err? <==> SomeBadName(elems)
    ensures CollectNames(elems, render).Err? ==>
              CollectNames(elems, render).error == MissingOrInvalidName
    ensures CollectNames(elems, render).Ok? ==>
              |CollectNames(elems, render).value| == |elems| &&
              forall i :: 0 <= i < |elems| ==>
                CollectNames(elems, render).value[i] == render(NameOf(elems[i]))
    decreases |elems|
  {
    if elems != [] {
      var init := elems[..|elems| - 1];
      CollectNamesMeaning(init, render);
      assert forall i :: 0 <= i < |init| ==> elems[i] == init[i];
      assert SomeBadName(elems) <==> SomeBadName(init) || !HasStringName(elems[|elems| - 1]);
    }
  }

  /** The closed-form meaning of `get_states`: an error exactly when the
      response is not an array or some element lacks a string-valued name,
      InvalidResponse exactly for a non-array, and otherwise one rendered
      name per element, in element order. */
  lemma GetStatesSpecMeaning(resp: Json, render: Json -> string)
    ensures GetStatesSpec(resp, render).Err? <==> !resp.Arr? || SomeBadName(resp.elems)
    ensures GetStatesSpec(resp, render) == Err(InvalidResponse) <==> !resp.Arr?
    ensures GetStatesSpec(resp, render).Ok? ==>
              resp.Arr? && |GetStatesSpec(resp, render).value| == |resp.elems| &&
              forall i :: 0 <= i < |resp.elems| ==>
                GetStatesSpec(resp, render).value[i] == render(NameOf(resp.elems[i]))
  {
    if resp.Arr? { CollectNamesMeaning(resp.elems, render); }
  }

  /** An array is accepted exactly when every element is an object holding a
      `name` key whose value is a string: `Value::get` finds no name in any
      other kind of element. */
  lemma AcceptedIffNamedObjects(elems: seq<Json>, render: Json -> string)
    ensures GetStatesSpec(Arr(elems), render).Ok? <==>
              forall i :: 0 <= i < |elems| ==>
                elems[i].Obj? && "name" in elems[i].fields && elems[i].fields["name"].Str?
  {
    CollectNamesMeaning(elems, render);
  }

  /** Once a prefix is rejected, every longer prefix is rejected with the same error. */
  lemma {:induction false} RejectionSticks(elems: seq<Json>, k: nat, render: Json -> string)
    requires k <= |elems|
    requires CollectNames(elems[..k], render).Err?
    ensures CollectNames(elems, render) == CollectNames(elems[..k], render)
    decreases |elems| - k
  {
    if k < |elems| {
      var next := elems[..k + 1];
      assert next[..|next| - 1] == elems[..k];
      RejectionSticks(elems, k + 1, render);
    } else {
      assert elems[..k] == elems;
    }
  }

  /** `get_states` after the body has been decoded into `resp`: reject a
      non-array, then walk the elements in order, appending each one's
      rendered name and returning an error at the first element whose
      `name` is missing or not a string. */
  method GetStates(resp: Json, render: Json -> string) returns (r: Result<seq<string>>)
    ensures r == GetStatesSpec(resp, render)
    ensures r.Err? <==> !resp.Arr? || SomeBadName(resp.elems)
    ensures r == Err(InvalidResponse) <==> !resp.Arr?
    ensures r.Ok? ==>
              resp.Arr? && |r.value| == |resp.elems| &&
              forall i :: 0 <= i < |resp.elems| ==> r.value[i] == render(NameOf(resp.elems[i]))
  {
    GetStatesSpecMeaning(resp, render);
    var states: seq<string> := [];
    if !resp.Arr? {
      return Err(InvalidResponse);
    }
    var elems := resp.elems;
    var i := 0;
    while i < |elems|
      invariant 0 <= i <= |elems|
      invariant CollectNames(elems[..i], render) == Ok(states)
    {
      var stateName := Get(elems[i], "name");
      if stateName.None? || !stateName.value.Str? {
        assert elems[..i + 1][..i] == elems[..i];
        RejectionSticks(elems, i + 1, render);
        return Err(MissingOrInvalidName);
      }
      assert elems[..i + 1][..i] == elems[..i];
      states := states + [render(stateName.value)];
      i := i + 1;
    }
    assert elems[..i] == elems;
    return Ok(states);
  }

  /** A response that is not an array is rejected, whatever its content. */
  lemma NotArrayRejected(resp: Json, render: Json -> string)
    requires !resp.Arr?
    ensures GetStatesSpec(resp, render) == Err(InvalidResponse)
  {
  }

  /** An element without a `name` key (any non-object element included)
      rejects the whole array, wherever it stands. */
  lemma MissingNameRejected(elems: seq<Json>, k: nat, render: Json -> string)
    requires k < |elems|
    requires !elems[k].Obj? || "name" !in elems[k].fields
    ensures GetStatesSpec(Arr(elems), render) == Err(MissingOrInvalidName)
  {
    assert !HasStringName(elems[k]);
    CollectNamesMeaning(elems, render);
  }

  /** An element whose `name` is present but not a string rejects the whole array. */
  lemma NonStringNameRejected(elems: seq<Json>, k: nat, render: Json -> string)
    requires k < |elems|
    requires elems[k].Obj? && "name" in elems[k].fields && !elems[k].fields["name"].Str?
    ensures GetStatesSpec(Arr(elems), render) == Err(MissingOrInvalidName)
  {
    assert !HasStringName(elems[k]);
    CollectNamesMeaning(elems, render);
  }

  /** Appending an element with a string name to an accepted array appends
      exactly its rendered name: earlier names are untouched and the order kept. */
  lemma AcceptedExtends(elems: seq<Json>, v: Json, render: Json -> string)
    requires GetStatesSpec(Arr(elems), render).Ok?
    requires HasStringName(v)
    ensures GetStatesSpec(Arr(elems + [v]), render)
            == Ok(GetStatesSpec(Arr(elems), render).value + [render(v.fields["name"])])
  {
  }

  /** An empty array is accepted with no names. */
  lemma EmptyArrayAccepted(render: Json -> string)
    ensures GetStatesSpec(Arr([]), render) == Ok([])
  {
  }

  // Rendering the name with `Value::to_string` keeps the JSON quotes.

  /** The string has no character that JSON escaping rewrites. */
  predicate Plain(s: string)
  {
    forall c :: c in s ==> c != '"' && c != '\\' && c >= ' '
  }

  /** What `Value::to_string` does to a string value with nothing to
      escape: it writes the string between double quotes. */
  ghost predicate QuotesPlainStrings(render: Json -> string)
  {
    forall s :: Plain(s) ==> render(Str(s)) == "\"" + s + "\""
  }

  /** As written: with `to_string` as the renderer, every accepted state
      name with nothing to escape comes back wrapped in quotes and so differs
      from the state's own name. Names that need escaping may stand beside it. */
  lemma RenderedNamesKeepQuotes(elems: seq<Json>, render: Json -> string)
    requires QuotesPlainStrings(render)
    requires GetStatesSpec(Arr(elems), render).Ok?
    ensures forall i :: 0 <= i < |elems| && Plain(AsStr(NameOf(elems[i]))) ==>
              GetStatesSpec(Arr(elems), render).value[i] == "\"" + AsStr(NameOf(elems[i])) + "\"" &&
              GetStatesSpec(Arr(elems), render).value[i] != AsStr(NameOf(elems[i]))
  {
    CollectNamesMeaning(elems, render);
    forall i | 0 <= i < |elems| && Plain(AsStr(NameOf(elems[i])))
      ensures GetStatesSpec(Arr(elems), render).value[i] == "\"" + AsStr(NameOf(elems[i])) + "\""
    {
      assert HasStringName(elems[i]);
      assert NameOf(elems[i]) == Str(AsStr(NameOf(elems[i])));
    }
  }

  /** The concrete case: a one-state response naming Alaska yields `"Alaska"`
      with its quotes, not `Alaska`. */
  lemma AlaskaKeepsQuotes(render: Json -> string)
    requires QuotesPlainStrings(render)
    ensures GetStatesSpec(Arr([Obj(map["name" := Str("Alaska")])]), render) == Ok(["\"Alaska\""])
    ensures GetStatesSpec(Arr([Obj(map["name" := Str("Alaska")])]), render) != Ok(["Alaska"])
  {
    var elems := [Obj(map["name" := Str("Alaska")])];
    assert render(Str("Alaska")) == "\"Alaska\"";
    assert [] + [render(NameOf(elems[0]))] == ["\"Alaska\""];
  }

  /** Corrected: the state names themselves, as `as_str` gives them. Same
      acceptance as `get_states`; on success entry i is exactly the text of
      element i's name. */
  function StateNames(resp: Json): (r: Result<seq<string>>)
    ensures r.Err? <==> !resp.Arr? || SomeBadName(resp.elems)
    ensures r == Err(InvalidResponse) <==> !resp.Arr?
    ensures r.Ok? ==>
              resp.Arr? && |r.value| == |resp.elems| &&
              forall i :: 0 <= i < |resp.elems| ==>
                Str(r.value[i]) == Get(resp.elems[i], "name").value
  {
    GetStatesSpecMeaning(resp, AsStr);
    GetStatesSpec(resp, AsStr)
  }

  /** The written code and the corrected one agree on which responses they
      accept and reject, with the same error, and each accepted name with
      nothing to escape differs exactly by the surrounding quotes. */
  lemma QuotedAgainstCorrected(resp: Json, render: Json -> string)
    requires QuotesPlainStrings(render)
    ensures GetStatesSpec(resp, render).Err? <==> StateNames(resp).Err?
    ensures GetStatesSpec(resp, render).Err? ==>
              GetStatesSpec(resp, render).error == StateNames(resp).error
    ensures StateNames(resp).Ok? ==>
              |GetStatesSpec(resp, render).value| == |StateNames(resp).value| &&
              forall i :: 0 <= i < |StateNames(resp).value| && Plain(StateNames(resp).value[i]) ==>
                GetStatesSpec(resp, render).value[i] == "\"" + StateNames(resp).value[i] + "\""
  {
    GetStatesSpecMeaning(resp, render);
    GetStatesSpecMeaning(resp, AsStr);
    if resp.Arr? && StateNames(resp).Ok? {
      RenderedNamesKeepQuotes(resp.elems, render);
    }
  }
}
