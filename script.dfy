/**
 * The browser-side request filter (assets/script.js): before htmx sends a
 * request, parameters whose value is blank are dropped, and on the chart
 * form a relative bound drops the fixed one it replaces.
 */
module Script {
  import opened Text

  const CHART_FORM_ID: string := "metric-chart-form"

  /** A blank value: nothing but white space. */
  predicate Blank(v: string)
  {
    JsTrim(v) == []
  }

  /** The parameters without the blank ones. */
  function WithoutBlank(params: map<string, string>): (r: map<string, string>)
    ensures r.Keys <= params.Keys
    ensures forall k :: k in r ==> r[k] == params[k] && !Blank(r[k])
    ensures forall k :: k in params && !Blank(params[k]) ==> k in r
  {
    map k | k in params && !Blank(params[k]) :: params[k]
  }

  /** On the chart form, a present relative bound removes its fixed bound. */
  function PreferRelative(p: map<string, string>, formId: string): map<string, string>
  {
    if formId == CHART_FORM_ID then
      var p' := if "start-rel" in p then p - {"start-fixed"} else p;
      if "end-rel" in p' then p' - {"end-fixed"} else p'
    else p
  }

  /** What the handler leaves: blank values removed first, then relative bounds preferred. */
  function Filtered(params: map<string, string>, formId: string): map<string, string>
  {
    PreferRelative(WithoutBlank(params), formId)
  }

  /** No blank value remains, and every remaining value is the one sent. */
  lemma {:induction false} FilteredHasNoBlank(params: map<string, string>, formId: string)
    ensures forall k :: k in Filtered(params, formId) ==> k in params && Filtered(params, formId)[k] == params[k] && !Blank(params[k])
  {
  }

  /**
   * A non-blank parameter survives unless it is a fixed bound on the chart
   * form whose relative bound is present and non-blank.
   */
  lemma {:induction false} FilteredKeeps(params: map<string, string>, formId: string, k: string)
    requires k in params && !Blank(params[k])
    ensures k !in Filtered(params, formId) <==>
      (formId == CHART_FORM_ID
       && ((k == "start-fixed" && "start-rel" in params && !Blank(params["start-rel"]))
           || (k == "end-fixed" && "end-rel" in params && !Blank(params["end-rel"]))))
  {
    var w := WithoutBlank(params);
    PreferRelativeRemoves(w, formId, k);
    assert "start-rel" in w <==> "start-rel" in params && !Blank(params["start-rel"]);
    assert "end-rel" in w <==> "end-rel" in params && !Blank(params["end-rel"]);
  }

  /** On the chart form a present relative bound removes its fixed bound, and nothing else is removed. */
  lemma {:induction false} PreferRelativeRemoves(p: map<string, string>, formId: string, k: string)
    requires k in p
    ensures k !in PreferRelative(p, formId) <==>
      (formId == CHART_FORM_ID
       && ((k == "start-fixed" && "start-rel" in p) || (k == "end-fixed" && "end-rel" in p)))
  {
    if formId == CHART_FORM_ID {
      assert "start-fixed"[0] != "end-fixed"[0] && "end-rel"[1] != "start-fixed"[1];
      var p' := if "start-rel" in p then p - {"start-fixed"} else p;
      assert "end-rel" in p' <==> "end-rel" in p;
      assert k in p' <==> !(k == "start-fixed" && "start-rel" in p);
    }
  }

  /** On the chart form a relative bound and its fixed bound never travel together. */
  lemma {:induction false} RelativeOverFixed(params: map<string, string>)
    ensures var r := Filtered(params, CHART_FORM_ID);
      && ("start-rel" in r ==> "start-fixed" !in r)
      && ("end-rel" in r ==> "end-fixed" !in r)
  {
  }

  /** A blank relative bound is dropped first, so it does not remove the fixed one. */
  lemma {:induction false} BlankRelativeKeepsFixed(params: map<string, string>)
    requires "start-rel" in params && Blank(params["start-rel"])
    requires "start-fixed" in params && !Blank(params["start-fixed"])
    ensures "start-fixed" in Filtered(params, CHART_FORM_ID)
    ensures "start-rel" !in Filtered(params, CHART_FORM_ID)
  {
  }

  /** Other forms only lose their blank values. */
  lemma {:induction false} OtherFormsOnlyDropBlank(params: map<string, string>, formId: string)
    requires formId != CHART_FORM_ID
    ensures Filtered(params, formId) == WithoutBlank(params)
  {
  }

  /** The parameters while the removal loop runs: the keys still `pending` are kept whatever their value. */
  function Pruned(params: map<string, string>, pending: set<string>): map<string, string>
  {
    map k | k in params && (k in pending || !Blank(params[k])) :: params[k]
  }

  /** Visiting one pending key drops it exactly when its value is blank. */
  lemma {:induction false} PrunedStep(params: map<string, string>, pending: set<string>, key: string)
    requires key in pending && key in params
    ensures Pruned(params, pending - {key})
         == if Blank(params[key]) then Pruned(params, pending) - {key} else Pruned(params, pending)
  {
  }

  lemma {:induction false} PrunedEnds(params: map<string, string>)
    ensures Pruned(params, params.Keys) == params
    ensures Pruned(params, {}) == WithoutBlank(params)
  {
  }

  /** The `parameters` object of an htmx request, which the handler edits in place. */
  class Parameters {
    var values: map<string, string>

    constructor (values: map<string, string>)
      ensures this.values == values
    {
      this.values := values;
    }

    /** The `htmx:configRequest` listener; `formId` is the id of the element that sends the request. */
    method ConfigRequest(formId: string)
      modifies this
      ensures values == Filtered(old(values), formId)
    {
      DropBlank();
      PreferRelativeBounds(formId);
    }

    /** The loop over the parameters: each blank value is deleted. */
    method DropBlank()
      modifies this
      ensures values == WithoutBlank(old(values))
    {
      ghost var original := values;
      var pending := values.Keys;
      PrunedEnds(original);
      while pending != {}
        invariant pending <= original.Keys
        invariant values == Pruned(original, pending)
        decreases |pending|
      {
        var key :| key in pending;
        PrunedStep(original, pending, key);
        if Blank(values[key]) {
          values := values - {key};
        }
        pending := pending - {key};
      }
    }

    /** The chart-form step: a present relative bound deletes its fixed bound. */
    method PreferRelativeBounds(formId: string)
      modifies this
      ensures values == PreferRelative(old(values), formId)
    {
      if formId == CHART_FORM_ID {
        if "start-rel" in values {
          values := values - {"start-fixed"};
        }
        if "end-rel" in values {
          values := values - {"end-fixed"};
        }
      }
    }
  }
}
