/** The two Distance Matrix helpers of api_commute.py. The HTTP request
    itself is a function `respond(origin, destination, mode)` from the
    request to what `requests.get(...).json()` produced: the decoded body,
    or the exception one of those two calls raised. */
module Commute {
  import opened Common
  import opened Dicts

  // ---------------------------------------------------------------------
  // The decoded JSON body

  /** A key of a JSON object: present with a value, or missing. */
  datatype Field<T> = Has(value: T) | Absent

  datatype DurationJson = DurationJson(value: Field<int>, text: Field<string>)
  datatype ElementJson = ElementJson(status: Field<string>, duration: Field<DurationJson>)
  datatype RowJson = RowJson(elements: Field<seq<ElementJson>>)
  datatype Body = Body(status: Field<string>, rows: Field<seq<RowJson>>)

  datatype Response = Decoded(body: Body) | Raised(error: Failure)

  /** What one iteration of a mode loop makes of its response: a value to
      store, nothing to store, or an exception inside the `try`. */
  datatype Outcome<T> = Recorded(value: T) | Skipped | Failed(failure: Failure)

  /** `data["rows"][0]["elements"][0]`: a missing key raises `KeyError`, an
      empty list `IndexError`. */
  function FirstElement(b: Body): (r: Result<ElementJson, Failure>)
    ensures r.Ok? <==> b.rows.Has? && |b.rows.value| > 0
                       && b.rows.value[0].elements.Has? && |b.rows.value[0].elements.value| > 0
    ensures r.Ok? ==> r.value == b.rows.value[0].elements.value[0]
    ensures r.Err? ==> r.error == KeyError || r.error == IndexError
  {
    match b.rows
    case Absent => Err(KeyError)
    case Has(rows) =>
      if |rows| == 0 then Err(IndexError)
      else
        match rows[0].elements
        case Absent => Err(KeyError)
        case Has(els) => if |els| == 0 then Err(IndexError) else Ok(els[0])
  }

  /** Both status checks pass: the body's `status` is "OK", its first
      element exists and that element's `status` is "OK". */
  predicate BothOK(resp: Response) {
    && resp.Decoded?
    && resp.body.status == Has("OK")
    && FirstElement(resp.body).Ok?
    && FirstElement(resp.body).value.status == Has("OK")
  }

  /** The `duration` object of the first element, once both checks pass. */
  function ElementOutcome(resp: Response): (o: Outcome<DurationJson>)
    ensures o.Recorded? <==> BothOK(resp) && FirstElement(resp.body).value.duration.Has?
    ensures o.Recorded? ==> o.value == FirstElement(resp.body).value.duration.value
    ensures o.Skipped? ==> !BothOK(resp)
  {
    match resp
    case Raised(f) => Failed(f)
    case Decoded(b) =>
      match b.status
      case Absent => Failed(KeyError)
      case Has(s) =>
        if s != "OK" then Skipped
        else
          match FirstElement(b)
          case Err(f) => Failed(f)
          case Ok(el) =>
            match el.status
            case Absent => Failed(KeyError)
            case Has(es) =>
              if es != "OK" then Skipped
              else
                match el.duration
                case Absent => Failed(KeyError)
                case Has(d) => Recorded(d)
  }

  /** The record step of the best-mode loop: `element["duration"]["value"]`. */
  function SecondsOutcome(resp: Response): (o: Outcome<int>)
    ensures o.Recorded? <==> ElementOutcome(resp).Recorded? && ElementOutcome(resp).value.value.Has?
    ensures o.Recorded? ==> o.value == ElementOutcome(resp).value.value.value
    ensures o.Skipped? <==> ElementOutcome(resp).Skipped?
  {
    match ElementOutcome(resp)
    case Recorded(d) => if d.value.Has? then Recorded(d.value.value) else Failed(KeyError)
    case Skipped => Skipped
    case Failed(f) => Failed(f)
  }

  /** The record step of the all-modes loop: it reads `duration["value"]`
      (and discards it) before `duration["text"]`, so both must be there. */
  function TextOutcome(resp: Response): (o: Outcome<string>)
    ensures o.Recorded? <==> && ElementOutcome(resp).Recorded?
                             && ElementOutcome(resp).value.value.Has?
                             && ElementOutcome(resp).value.text.Has?
    ensures o.Recorded? ==> o.value == ElementOutcome(resp).value.text.value
    ensures o.Skipped? <==> ElementOutcome(resp).Skipped?
  {
    match ElementOutcome(resp)
    case Recorded(d) =>
      if d.value.Absent? then Failed(KeyError)
      else if d.text.Absent? then Failed(KeyError)
      else Recorded(d.text.value)
    case Skipped => Skipped
    case Failed(f) => Failed(f)
  }

  /** A mode the all-modes variant records is one the best-mode variant
      records too, and the two skip the same responses. */
  lemma TextImpliesSeconds(resp: Response)
    ensures TextOutcome(resp).Recorded? ==> SecondsOutcome(resp).Recorded?
    ensures TextOutcome(resp).Skipped? <==> SecondsOutcome(resp).Skipped?
    ensures TextOutcome(resp).Recorded? || SecondsOutcome(resp).Recorded? ==> BothOK(resp)
  {
  }

  // ---------------------------------------------------------------------
  // Modes

  /** The user-facing name: only "transit" is renamed. */
  function Label(mode: string): (l: string)
    ensures mode == "transit" ==> l == "public transport"
    ensures mode != "transit" ==> l == mode
  {
    if mode == "transit" then "public transport" else mode
  }

  /** The modes of `get_commute_times_all_modes`, in loop order. */
  const AllModes: seq<string> := ["driving", "transit", "bicycling", "walking"]

  /** The modes of `get_best_commute_time`. "waling" is written so in the
      program, so the API is never asked for a walking time there. */
  const BestModes: seq<string> := ["driving", "transit", "waling", "bicycling"]

  /** The keys the all-modes result may hold. */
  const AllLabels: seq<string> := ["driving", "public transport", "bicycling", "walking"]

  predicate Distinct(xs: seq<string>) {
    forall i, j :: 0 <= i < j < |xs| ==> xs[i] != xs[j]
  }

  /** The relabelled all-modes list, and distinct names on both lists. */
  lemma ModeLists()
    ensures |AllModes| == |AllLabels| == |BestModes| == 4
    ensures forall i :: 0 <= i < 4 ==> Label(AllModes[i]) == AllLabels[i]
    ensures Distinct(AllLabels) && Distinct(BestModes)
  {
  }

  /** One request per mode, in loop order. */
  function Responses(origin: string, destination: string,
                     respond: (string, string, string) -> Response,
                     modes: seq<string>): (rs: seq<Response>)
    ensures |rs| == |modes|
    ensures forall i :: 0 <= i < |modes| ==> rs[i] == respond(origin, destination, modes[i])
  {
    seq(|modes|, i requires 0 <= i < |modes| => respond(origin, destination, modes[i]))
  }

  // ---------------------------------------------------------------------
  // get_commute_times_all_modes

  /** The `results` dict after the loop over `modes`: every recorded text
      under the mode's label, in loop order. */
  function TextsFor(modes: seq<string>, resps: seq<Response>): Dict<string>
    requires |modes| == |resps|
    decreases |modes|
  {
    if modes == [] then []
    else
      var n := |modes| - 1;
      var d := TextsFor(modes[..n], resps[..n]);
      var o := TextOutcome(resps[n]);
      if o.Recorded? then Put(d, Label(modes[n]), o.value) else d
  }

  /** What `get_commute_times_all_modes(origin, destination, key)` returns. */
  function CommuteTexts(origin: string, destination: string,
                        respond: (string, string, string) -> Response): Dict<string>
  {
    TextsFor(AllModes, Responses(origin, destination, respond, AllModes))
  }

  /** Every key is the label of a mode whose response was recorded, and no
      key appears twice. */
  lemma {:induction false} TextsForKeys(modes: seq<string>, resps: seq<Response>)
    requires |modes| == |resps|
    ensures DistinctKeys(TextsFor(modes, resps))
    ensures forall k :: k in Keys(TextsFor(modes, resps)) ==>
              exists i :: 0 <= i < |modes| && k == Label(modes[i]) && TextOutcome(resps[i]).Recorded?
    decreases |modes|
  {
    if modes != [] {
      var n := |modes| - 1;
      var d := TextsFor(modes[..n], resps[..n]);
      TextsForKeys(modes[..n], resps[..n]);
      var o := TextOutcome(resps[n]);
      if o.Recorded? {
        var l := Label(modes[n]);
        PutDistinct(d, l, o.value);
        forall k | k in Keys(TextsFor(modes, resps))
          ensures exists i :: 0 <= i < |modes| && k == Label(modes[i]) && TextOutcome(resps[i]).Recorded?
        {
          if k != l {
            PutGet(d, l, o.value, k);
            var i :| 0 <= i < n && k == Label(modes[..n][i]) && TextOutcome(resps[..n][i]).Recorded?;
            assert modes[..n][i] == modes[i] && resps[..n][i] == resps[i];
          }
        }
      } else {
        forall k | k in Keys(d)
          ensures exists i :: 0 <= i < |modes| && k == Label(modes[i]) && TextOutcome(resps[i]).Recorded?
        {
          var i :| 0 <= i < n && k == Label(modes[..n][i]) && TextOutcome(resps[..n][i]).Recorded?;
          assert modes[..n][i] == modes[i] && resps[..n][i] == resps[i];
        }
      }
    }
  }

  /** With distinct labels, each mode's entry is its own response's text, or
      missing when that response was not recorded: a failure on one mode
      does not affect another. */
  lemma {:induction false} TextsForGet(modes: seq<string>, resps: seq<Response>, i: nat)
    requires |modes| == |resps| && i < |modes|
    requires forall a, b :: 0 <= a < b < |modes| ==> Label(modes[a]) != Label(modes[b])
    ensures Get(TextsFor(modes, resps), Label(modes[i])) ==
            if TextOutcome(resps[i]).Recorded? then Some(TextOutcome(resps[i]).value) else None
    decreases |modes|
  {
    var n := |modes| - 1;
    var d := TextsFor(modes[..n], resps[..n]);
    var o := TextOutcome(resps[n]);
    if i == n {
      if o.Recorded? {
        PutGet(d, Label(modes[n]), o.value, Label(modes[n]));
      } else {
        LabelNotYet(modes, resps, n);
      }
    } else {
      assert forall a :: 0 <= a < n ==> modes[..n][a] == modes[a];
      TextsForGet(modes[..n], resps[..n], i);
      assert resps[..n][i] == resps[i];
      if o.Recorded? {
        PutGet(d, Label(modes[n]), o.value, Label(modes[i]));
      }
    }
  }

  /** With distinct labels, a mode's label is not a key before its turn. */
  lemma LabelNotYet(modes: seq<string>, resps: seq<Response>, n: nat)
    requires |modes| == |resps| && n < |modes|
    requires forall a, b :: 0 <= a < b < |modes| ==> Label(modes[a]) != Label(modes[b])
    ensures Label(modes[n]) !in Keys(TextsFor(modes[..n], resps[..n]))
  {
    TextsForKeys(modes[..n], resps[..n]);
    forall k | k in Keys(TextsFor(modes[..n], resps[..n]))
      ensures k != Label(modes[n])
    {
      var j :| 0 <= j < n && k == Label(modes[..n][j]) && TextOutcome(resps[..n][j]).Recorded?;
      assert modes[..n][j] == modes[j];
    }
  }

  /** When every request raises, the result is empty. */
  lemma {:induction false} TextsForAllFailed(modes: seq<string>, resps: seq<Response>)
    requires |modes| == |resps|
    requires forall i :: 0 <= i < |resps| ==> resps[i].Raised?
    ensures TextsFor(modes, resps) == []
    decreases |modes|
  {
    if modes != [] {
      var n := |modes| - 1;
      TextsForAllFailed(modes[..n], resps[..n]);
    }
  }

  /** `get_commute_times_all_modes`: one request per mode; every exception is
      caught (and printed) and the loop goes on with the next mode. */
  method GetCommuteTimesAllModes(origin: string, destination: string,
                                 respond: (string, string, string) -> Response)
    returns (results: Dict<string>)
    ensures results == CommuteTexts(origin, destination, respond)
    ensures forall i :: 0 <= i < 4 ==>
              var o := TextOutcome(respond(origin, destination, AllModes[i]));
              Get(results, AllLabels[i]) == if o.Recorded? then Some(o.value) else None
    ensures forall k :: k in Keys(results) ==> k in AllLabels
    ensures DistinctKeys(results)
  {
    ghost var resps := Responses(origin, destination, respond, AllModes);
    results := [];
    for i := 0 to |AllModes|
      invariant results == TextsFor(AllModes[..i], resps[..i])
    {
      var mode := AllModes[i];
      var outcome := TextOutcome(respond(origin, destination, mode));
      assert AllModes[..i + 1] == AllModes[..i] + [mode];
      assert resps[..i + 1][..i] == resps[..i];
      if outcome.Recorded? {
        results := Put(results, Label(mode), outcome.value);
      }
    }
    assert AllModes[..4] == AllModes && resps[..4] == resps;
    ModeLists();
    TextsForKeys(AllModes, resps);
    forall i | 0 <= i < 4
      ensures var o := TextOutcome(respond(origin, destination, AllModes[i]));
              Get(results, AllLabels[i]) == if o.Recorded? then Some(o.value) else None
    {
      TextsForGet(AllModes, resps, i);
    }
  }

  // ---------------------------------------------------------------------
  // get_best_commute_time

  /** The `results` dict of the best-mode loop over `modes` (seconds under
      the raw mode name), or the first exception that is not a `KeyError`
      or an `IndexError`, which ends the loop and the call. */
  function SecondsFor(modes: seq<string>, resps: seq<Response>): Result<Dict<int>, Failure>
    requires |modes| == |resps|
    decreases |modes|
  {
    if modes == [] then Ok([])
    else
      var n := |modes| - 1;
      match SecondsFor(modes[..n], resps[..n])
      case Err(f) => Err(f)
      case Ok(d) =>
        match SecondsOutcome(resps[n])
        case Recorded(s) => Ok(Put(d, modes[n], s))
        case Skipped => Ok(d)
        case Failed(f) => if f.Other? then Err(f) else Ok(d)
  }

  /** `min(results, key=results.get)`, relabelled; `None` for an empty dict.
      `round(secs / 60, 1)` is not modelled: the seconds are returned. */
  function Best(d: Dict<int>): Option<(string, int)> {
    if d == [] then None
    else
      var k := ArgMinFirst(Values(d));
      Some((Label(d[k].0), d[k].1))
  }

  /** What `get_best_commute_time(origin, destination, key)` returns, or the
      exception it lets escape. */
  function BestCommute(origin: string, destination: string,
                       respond: (string, string, string) -> Response): Result<Option<(string, int)>, Failure>
  {
    match SecondsFor(BestModes, Responses(origin, destination, respond, BestModes))
    case Err(f) => Err(f)
    case Ok(d) => Ok(Best(d))
  }

  predicate Escapes(resp: Response) {
    SecondsOutcome(resp).Failed? && SecondsOutcome(resp).failure.Other?
  }

  /** Only an exception raised by the request or the decoding itself, and
      of a class other than `KeyError` and `IndexError`, escapes: a missing
      key or an empty list in the body is always caught. */
  lemma EscapesRaised(resp: Response)
    ensures Escapes(resp) <==> resp.Raised? && resp.error.Other?
  {
  }

  /** The loop ends in an exception exactly when some response's failure is
      not caught, and that exception is the first such one. */
  lemma {:induction false} SecondsForErr(modes: seq<string>, resps: seq<Response>)
    requires |modes| == |resps|
    ensures SecondsFor(modes, resps).Err? <==> exists i :: 0 <= i < |resps| && Escapes(resps[i])
    ensures SecondsFor(modes, resps).Err? ==>
              exists i :: 0 <= i < |resps| && Escapes(resps[i])
                          && SecondsOutcome(resps[i]).failure == SecondsFor(modes, resps).error
                          && forall j :: 0 <= j < i ==> !Escapes(resps[j])
    decreases |modes|
  {
    if modes != [] {
      var n := |modes| - 1;
      SecondsForErr(modes[..n], resps[..n]);
      assert forall i :: 0 <= i < n ==> resps[..n][i] == resps[i];
    }
  }

  /** The mask of recorded responses and the (mode, seconds) pair each mode
      would contribute. */
  function RecordedMask(resps: seq<Response>): (m: seq<bool>)
    ensures |m| == |resps|
    ensures forall i :: 0 <= i < |resps| ==> m[i] == SecondsOutcome(resps[i]).Recorded?
  {
    seq(|resps|, i requires 0 <= i < |resps| => SecondsOutcome(resps[i]).Recorded?)
  }

  function SecondsOf(resp: Response): int {
    if SecondsOutcome(resp).Recorded? then SecondsOutcome(resp).value else 0
  }

  function Pairs(modes: seq<string>, resps: seq<Response>): (ps: seq<(string, int)>)
    requires |modes| == |resps|
    ensures |ps| == |modes|
    ensures forall i :: 0 <= i < |modes| ==> ps[i] == (modes[i], SecondsOf(resps[i]))
  {
    seq(|modes|, i requires 0 <= i < |modes| => (modes[i], SecondsOf(resps[i])))
  }

  /** With distinct mode names and no escaping exception, the dict is the
      recorded (mode, seconds) pairs in loop order. */
  lemma {:induction false} SecondsForFiltered(modes: seq<string>, resps: seq<Response>)
    requires |modes| == |resps| && Distinct(modes)
    requires forall i :: 0 <= i < |resps| ==> !Escapes(resps[i])
    ensures SecondsFor(modes, resps) == Ok(FilterBy(Pairs(modes, resps), RecordedMask(resps)))
    decreases |modes|
  {
    if modes != [] {
      var n := |modes| - 1;
      SecondsForFiltered(modes[..n], resps[..n]);
      var ps, m := Pairs(modes, resps), RecordedMask(resps);
      assert Pairs(modes[..n], resps[..n]) == ps[..n];
      assert RecordedMask(resps[..n]) == m[..n];
      var d := FilterBy(ps[..n], m[..n]);
      FilterByKept(ps[..n], m[..n]);
      forall k | 0 <= k < |d|
        ensures d[k].0 != modes[n]
      {
        assert d[k] == ps[Kept(m[..n])[k]];
      }
      assert modes[n] !in Keys(d);
      assert FilterBy(ps, m) == d + (if m[n] then [ps[n]] else []);
      SecondsStep(modes, resps, d);
    }
  }

  /** One step of the best-mode loop on a dict that does not hold the mode. */
  lemma SecondsStep(modes: seq<string>, resps: seq<Response>, d: Dict<int>)
    requires |modes| == |resps| > 0
    requires var n := |modes| - 1; SecondsFor(modes[..n], resps[..n]) == Ok(d) && modes[n] !in Keys(d)
    requires !Escapes(resps[|modes| - 1])
    ensures var n := |modes| - 1;
            SecondsFor(modes, resps)
            == Ok(d + (if SecondsOutcome(resps[n]).Recorded? then [(modes[n], SecondsOf(resps[n]))] else []))
  {
    var n := |modes| - 1;
    var o := SecondsOutcome(resps[n]);
    if o.Recorded? {
      assert SecondsFor(modes, resps) == Ok(Put(d, modes[n], o.value));
    } else {
      assert SecondsFor(modes, resps) == Ok(d);
      assert d + [] == d;
    }
  }

  /** With distinct modes, the reduction finds nothing exactly when no mode
      was recorded and no exception escaped. */
  lemma BestOfNone(modes: seq<string>, resps: seq<Response>)
    requires |modes| == |resps| && Distinct(modes)
    ensures SecondsFor(modes, resps) == Ok([]) <==>
              forall i :: 0 <= i < |resps| ==> !SecondsOutcome(resps[i]).Recorded? && !Escapes(resps[i])
  {
    SecondsForErr(modes, resps);
    if forall i :: 0 <= i < |resps| ==> !Escapes(resps[i]) {
      SecondsForFiltered(modes, resps);
      FilterByEmpty(Pairs(modes, resps), RecordedMask(resps));
    }
  }

  /** The first minimum of the values of a filtered list of pairs is a kept
      pair with a minimal value among the kept ones, and every kept pair
      before it has a larger value. */
  lemma FilteredMin(ps: seq<(string, int)>, m: seq<bool>)
    requires |ps| == |m| && FilterBy(ps, m) != []
    ensures var d := FilterBy(ps, m); var k := ArgMinFirst(Values(d));
            exists i :: 0 <= i < |ps| && m[i] && d[k] == ps[i]
              && (forall j :: 0 <= j < |ps| && m[j] ==> d[k].1 <= ps[j].1)
              && (forall j :: 0 <= j < i && m[j] ==> d[k].1 < ps[j].1)
  {
    var d := FilterBy(ps, m);
    FilterByKept(ps, m);
    var vals := Values(ps);
    var xs := Values(d);
    forall k | 0 <= k < |xs|
      ensures xs[k] == vals[Kept(m)[k]]
    {
      assert d[k] == ps[Kept(m)[k]];
    }
    FilterByFirstMin(ps, m, vals, xs);
  }

  /** With distinct modes, the reduction picks a recorded mode whose seconds
      are minimal, and every recorded mode before it is strictly slower. */
  lemma BestOfMinimal(modes: seq<string>, resps: seq<Response>, d: Dict<int>)
    requires |modes| == |resps| && Distinct(modes)
    requires SecondsFor(modes, resps) == Ok(d) && d != []
    ensures var k := ArgMinFirst(Values(d));
            exists i :: 0 <= i < |modes| && SecondsOutcome(resps[i]) == Recorded(d[k].1) && d[k].0 == modes[i]
              && (forall j :: 0 <= j < |modes| && SecondsOutcome(resps[j]).Recorded? ==> d[k].1 <= SecondsOutcome(resps[j]).value)
              && (forall j :: 0 <= j < i && SecondsOutcome(resps[j]).Recorded? ==> d[k].1 < SecondsOutcome(resps[j]).value)
  {
    SecondsForErr(modes, resps);
    SecondsForFiltered(modes, resps);
    FilteredMin(Pairs(modes, resps), RecordedMask(resps));
  }

  /** `get_best_commute_time` returns `(None, None)` exactly when no mode
      succeeded and no uncaught exception ended the loop. */
  lemma BestNone(origin: string, destination: string, respond: (string, string, string) -> Response)
    ensures var rs := Responses(origin, destination, respond, BestModes);
            BestCommute(origin, destination, respond) == Ok(None) <==>
              forall i :: 0 <= i < 4 ==> !SecondsOutcome(rs[i]).Recorded? && !Escapes(rs[i])
  {
    ModeLists();
    BestOfNone(BestModes, Responses(origin, destination, respond, BestModes));
  }

  /** When some mode succeeded, the returned mode is one whose seconds are
      minimal among the succeeded modes, any succeeded mode before it is
      strictly slower, and "transit" is renamed only after the choice. */
  lemma BestMinimal(origin: string, destination: string, respond: (string, string, string) -> Response,
                    name: string, secs: int)
    requires BestCommute(origin, destination, respond) == Ok(Some((name, secs)))
    ensures var rs := Responses(origin, destination, respond, BestModes);
            exists i :: 0 <= i < 4 && SecondsOutcome(rs[i]) == Recorded(secs)
              && name == Label(BestModes[i])
              && (forall j :: 0 <= j < 4 && SecondsOutcome(rs[j]).Recorded? ==> secs <= SecondsOutcome(rs[j]).value)
              && (forall j :: 0 <= j < i && SecondsOutcome(rs[j]).Recorded? ==> secs < SecondsOutcome(rs[j]).value)
  {
    var rs := Responses(origin, destination, respond, BestModes);
    ModeLists();
    var d := SecondsFor(BestModes, rs).value;
    BestOfMinimal(BestModes, rs, d);
  }

  /** An uncaught exception of the best-mode loop escapes the call. */
  lemma BestErr(origin: string, destination: string, respond: (string, string, string) -> Response)
    ensures var rs := Responses(origin, destination, respond, BestModes);
            BestCommute(origin, destination, respond).Err? <==> exists i :: 0 <= i < 4 && Escapes(rs[i])
  {
    SecondsForErr(BestModes, Responses(origin, destination, respond, BestModes));
  }

  /** `get_best_commute_time`: a `KeyError` or an `IndexError` inside the
      `try` skips the mode; any other exception leaves the function. */
  method GetBestCommuteTime(origin: string, destination: string,
                            respond: (string, string, string) -> Response)
    returns (r: Result<Option<(string, int)>, Failure>)
    ensures r == BestCommute(origin, destination, respond)
  {
    ghost var resps := Responses(origin, destination, respond, BestModes);
    var results: Dict<int> := [];
    for i := 0 to |BestModes|
      invariant SecondsFor(BestModes[..i], resps[..i]) == Ok(results)
    {
      var mode := BestModes[i];
      var outcome := SecondsOutcome(respond(origin, destination, mode));
      assert BestModes[..i + 1][..i] == BestModes[..i];
      assert resps[..i + 1][..i] == resps[..i];
      match outcome {
        case Recorded(s) =>
          results := Put(results, mode, s);
        case Skipped =>
        case Failed(f) =>
          if f.Other? {
            assert SecondsFor(BestModes[..i + 1], resps[..i + 1]) == Err(f);
            SecondsForPrefixErr(BestModes, resps, i + 1);
            assert BestModes[..4] == BestModes && resps[..4] == resps;
            return Err(f);
          }
      }
    }
    assert BestModes[..4] == BestModes && resps[..4] == resps;
    r := Ok(Best(results));
  }

  /** Once the loop has raised, later modes do not change that. */
  lemma {:induction false} SecondsForPrefixErr(modes: seq<string>, resps: seq<Response>, i: nat)
    requires |modes| == |resps| && i <= |modes|
    requires SecondsFor(modes[..i], resps[..i]).Err?
    ensures SecondsFor(modes, resps) == SecondsFor(modes[..i], resps[..i])
    decreases |modes| - i
  {
    if i < |modes| {
      assert modes[..i + 1][..i] == modes[..i] && resps[..i + 1][..i] == resps[..i];
      SecondsForPrefixErr(modes, resps, i + 1);
    } else {
      assert modes[..i] == modes && resps[..i] == resps;
    }
  }
}
