/** The commute enrichment of streamlit_app.py (lines 100-117): for every
    distinct location of the table, look the origin/work-address pair up in
    the commute cache (fetching all modes on a miss), keep the modes whose
    text reads as minutes, pick the quickest, and left-merge the records
    onto the table. */
module Enrichment {
  import opened Common
  import opened Dicts
  import opened Duration
  import opened Commute
  import opened Filters

  // ---------------------------------------------------------------------
  // Locations

  /** The four columns the loop walks: `area name`, `outcode`, `latitude`,
      `longitude`. */
  datatype Location = Location(areaName: string, outcode: string, latitude: real, longitude: real)

  function LocationOf(p: Property): Location {
    Location(p.areaName, p.outcode, p.latitude, p.longitude)
  }

  function Locations(rows: seq<Property>): (locs: seq<Location>)
    ensures |locs| == |rows|
    ensures forall i :: 0 <= i < |rows| ==> locs[i] == LocationOf(rows[i])
  {
    seq(|rows|, i requires 0 <= i < |rows| => LocationOf(rows[i]))
  }

  /** `drop_duplicates()`: the first occurrence of every location, in table
      order. */
  function DropDuplicates(locs: seq<Location>): (r: seq<Location>)
    ensures forall x :: x in r <==> x in locs
    ensures forall i, j :: 0 <= i < j < |r| ==> r[i] != r[j]
    decreases |locs|
  {
    if locs == [] then []
    else
      var n := |locs| - 1;
      var r := DropDuplicates(locs[..n]);
      assert locs == locs[..n] + [locs[n]];
      if locs[n] in locs[..n] then r else r + [locs[n]]
  }

  /** A table without repeated locations is walked as it is. */
  lemma {:induction false} DropDuplicatesDistinct(locs: seq<Location>)
    requires forall i, j :: 0 <= i < j < |locs| ==> locs[i] != locs[j]
    ensures DropDuplicates(locs) == locs
    decreases |locs|
  {
    if locs != [] {
      var n := |locs| - 1;
      DropDuplicatesDistinct(locs[..n]);
      assert locs == locs[..n] + [locs[n]];
      forall j | 0 <= j < n
        ensures locs[..n][j] != locs[n]
      {
        assert locs[..n][j] == locs[j];
      }
    }
  }

  // ---------------------------------------------------------------------
  // The best mode of one location

  /** One row of `commute_data`. */
  datatype Record = Record(areaName: string, outcode: string, bestMode: string,
                           durationText: string, durationMins: int)

  predicate Parses(text: string) {
    ExtractMinutes(Text(text)).Some?
  }

  function MinutesOf(text: string): int {
    if Parses(text) then ExtractMinutes(Text(text)).value else 0
  }

  /** `duration_mins == extract_minutes(duration_text)`. */
  predicate RecordOk(r: Record) {
    ExtractMinutes(Text(r.durationText)) == Some(r.durationMins)
  }

  function ValidMask(durations: Dict<string>): (m: seq<bool>)
    ensures |m| == |durations|
    ensures forall i :: 0 <= i < |durations| ==> m[i] == Parses(durations[i].1)
  {
    seq(|durations|, i requires 0 <= i < |durations| => Parses(durations[i].1))
  }

  /** `valid`: the entries whose text `extract_minutes` reads, in order. */
  function Valid(durations: Dict<string>): Dict<string> {
    FilterBy(durations, ValidMask(durations))
  }

  function ValidMinutes(valid: Dict<string>): (xs: seq<int>)
    ensures |xs| == |valid|
    ensures forall i :: 0 <= i < |valid| ==> xs[i] == MinutesOf(valid[i].1)
  {
    seq(|valid|, i requires 0 <= i < |valid| => MinutesOf(valid[i].1))
  }

  /** `min(valid, key=lambda k: extract_minutes(valid[k]))` and the record
      built from it; `None` when no mode is valid. */
  function BestRecord(loc: Location, durations: Dict<string>): (r: Option<Record>)
    ensures r.Some? ==> RecordOk(r.value) && r.value.areaName == loc.areaName && r.value.outcode == loc.outcode
  {
    var valid := Valid(durations);
    if valid == [] then None
    else
      FilterByKept(durations, ValidMask(durations));
      var k := ArgMinFirst(ValidMinutes(valid));
      assert valid[k] == durations[Kept(ValidMask(durations))[k]];
      Some(Record(loc.areaName, loc.outcode, valid[k].0, valid[k].1, MinutesOf(valid[k].1)))
  }

  /** No record exactly when no mode's text reads as minutes. */
  lemma BestRecordNone(loc: Location, durations: Dict<string>)
    ensures BestRecord(loc, durations).None? <==>
              forall i :: 0 <= i < |durations| ==> !Parses(durations[i].1)
  {
    FilterByEmpty(durations, ValidMask(durations));
  }

  /** The first minimum of the valid minutes sits at a valid position of
      the dict, is minimal over the valid entries and strictly below every
      valid entry before it. */
  lemma ValidMin(durations: Dict<string>)
    requires Valid(durations) != []
    ensures var valid, m, vals := Valid(durations), ValidMask(durations), DictMinutes(durations);
            var k := ArgMinFirst(ValidMinutes(valid));
            exists i :: 0 <= i < |durations| && durations[i] == valid[k] && m[i]
              && ValidMinutes(valid)[k] == vals[i]
              && (forall j :: 0 <= j < |durations| && m[j] ==> vals[i] <= vals[j])
              && (forall j :: 0 <= j < i && m[j] ==> vals[i] < vals[j])
  {
    var m := ValidMask(durations);
    var valid := Valid(durations);
    FilterByKept(durations, m);
    var vals := DictMinutes(durations);
    var xs := ValidMinutes(valid);
    forall k | 0 <= k < |xs|
      ensures xs[k] == vals[Kept(m)[k]]
    {
      assert valid[k] == durations[Kept(m)[k]];
    }
    FilterByFirstMin(durations, m, vals, xs);
  }

  function DictMinutes(durations: Dict<string>): (vals: seq<int>)
    ensures |vals| == |durations|
    ensures forall j :: 0 <= j < |durations| ==> vals[j] == MinutesOf(durations[j].1)
  {
    seq(|durations|, j requires 0 <= j < |durations| => MinutesOf(durations[j].1))
  }

  /** The chosen mode is a valid entry with minimal minutes, and every valid
      entry before it takes strictly longer: ties go to the earliest key. */
  lemma BestRecordMinimal(loc: Location, durations: Dict<string>)
    requires BestRecord(loc, durations).Some?
    ensures var r := BestRecord(loc, durations).value;
            exists i :: 0 <= i < |durations| && durations[i] == (r.bestMode, r.durationText)
              && Parses(durations[i].1)
              && (forall j :: 0 <= j < |durations| && Parses(durations[j].1) ==> r.durationMins <= MinutesOf(durations[j].1))
              && (forall j :: 0 <= j < i && Parses(durations[j].1) ==> r.durationMins < MinutesOf(durations[j].1))
  {
    ValidMin(durations);
  }

  // ---------------------------------------------------------------------
  // The cache lookup

  /** `f"{origin}|{work_address}"`. */
  function Key(origin: string, destination: string): string {
    origin + "|" + destination
  }

  /** `commute_cache.get(key)` is truthy: present and not an empty dict. */
  predicate IsHit(entries: map<string, Dict<string>>, key: string) {
    key in entries && entries[key] != []
  }

  /** The durations one lookup yields, and the cache and fetch count after it. */
  datatype Lookup = Lookup(durations: Dict<string>, entries: map<string, Dict<string>>, fetches: nat)

  /** Lines 106-110: a hit is used as it is; a miss fetches all modes once
      and stores the answer only when it is not empty. */
  function Resolve(entries: map<string, Dict<string>>, fetches: nat, origin: string, destination: string,
                   respond: (string, string, string) -> Response): Lookup
  {
    var key := Key(origin, destination);
    if IsHit(entries, key) then Lookup(entries[key], entries, fetches)
    else
      var fetched := CommuteTexts(origin, destination, respond);
      Lookup(fetched, if fetched != [] then entries[key := fetched] else entries, fetches + 1)
  }

  /** What the pass needs besides the table: the work address, the origin
      text `f"{lat:.4f}, {lng:.4f}"` as a function of the coordinates, and
      the HTTP layer. */
  datatype Env = Env(destination: string, origin: (real, real) -> string,
                     respond: (string, string, string) -> Response)

  function OriginOf(loc: Location, env: Env): string {
    env.origin(loc.latitude, loc.longitude)
  }

  /** The cache, the fetch count and `commute_data` during the pass. */
  datatype PassState = PassState(entries: map<string, Dict<string>>, fetches: nat, data: seq<Record>)

  function Step(st: PassState, loc: Location, env: Env): PassState {
    var l := Resolve(st.entries, st.fetches, OriginOf(loc, env), env.destination, env.respond);
    var best := BestRecord(loc, l.durations);
    PassState(l.entries, l.fetches, st.data + if best.Some? then [best.value] else [])
  }

  /** The loop of lines 103-115 over `locs`, from `st`. */
  function Pass(st: PassState, locs: seq<Location>, env: Env): PassState
    decreases |locs|
  {
    if locs == [] then st
    else
      var n := |locs| - 1;
      Step(Pass(st, locs[..n], env), locs[n], env)
  }

  /** One more location is one more step. */
  lemma PassSnoc(st: PassState, locs: seq<Location>, i: nat, env: Env)
    requires i < |locs|
    ensures Pass(st, locs[..i + 1], env) == Step(Pass(st, locs[..i], env), locs[i], env)
  {
    assert locs[..i + 1][..i] == locs[..i];
  }

  /** The pass never removes a cache entry nor changes a non-empty one, and
      fetches at most once per location. */
  lemma {:induction false} PassKeepsEntries(st: PassState, locs: seq<Location>, env: Env)
    ensures forall k :: k in st.entries ==> k in Pass(st, locs, env).entries
    ensures forall k :: IsHit(st.entries, k) ==> Pass(st, locs, env).entries[k] == st.entries[k]
    ensures st.fetches <= Pass(st, locs, env).fetches <= st.fetches + |locs|
    decreases |locs|
  {
    if locs != [] {
      PassKeepsEntries(st, locs[..|locs| - 1], env);
    }
  }

  /** Every location whose key is already a hit costs no fetch. */
  lemma {:induction false} AllHitsNoFetch(st: PassState, locs: seq<Location>, env: Env)
    requires forall i :: 0 <= i < |locs| ==> IsHit(st.entries, Key(OriginOf(locs[i], env), env.destination))
    ensures Pass(st, locs, env).fetches == st.fetches
    ensures Pass(st, locs, env).entries == st.entries
    decreases |locs|
  {
    if locs != [] {
      AllHitsNoFetch(st, locs[..|locs| - 1], env);
    }
  }

  /** Locations that share one origin text and miss at first: a non-empty
      answer is fetched once and then served from the cache. */
  lemma {:induction false} SharedOriginFetchedOnce(st: PassState, locs: seq<Location>, env: Env, origin: string)
    requires |locs| > 0
    requires forall i :: 0 <= i < |locs| ==> OriginOf(locs[i], env) == origin
    requires !IsHit(st.entries, Key(origin, env.destination))
    requires CommuteTexts(origin, env.destination, env.respond) != []
    ensures Pass(st, locs, env).fetches == st.fetches + 1
    ensures var key := Key(origin, env.destination);
            key in Pass(st, locs, env).entries
            && Pass(st, locs, env).entries[key] == CommuteTexts(origin, env.destination, env.respond)
    decreases |locs|
  {
    var n := |locs| - 1;
    if n > 0 {
      SharedOriginFetchedOnce(st, locs[..n], env, origin);
      assert OriginOf(locs[n], env) == origin;
    }
  }

  /** An empty answer is not stored, so every location with that origin
      fetches again. */
  lemma {:induction false} EmptyAnswerRetried(st: PassState, locs: seq<Location>, env: Env, origin: string)
    requires forall i :: 0 <= i < |locs| ==> OriginOf(locs[i], env) == origin
    requires !IsHit(st.entries, Key(origin, env.destination))
    requires CommuteTexts(origin, env.destination, env.respond) == []
    ensures Pass(st, locs, env).fetches == st.fetches + |locs|
    ensures Pass(st, locs, env).entries == st.entries
    decreases |locs|
  {
    var n := |locs| - 1;
    if locs != [] {
      EmptyAnswerRetried(st, locs[..n], env, origin);
      assert OriginOf(locs[n], env) == origin;
    }
  }

  /** `commute_data` grows by the record of each location that has one: its
      area and outcode come from a walked location and its minutes are what
      `extract_minutes` makes of its text. */
  lemma {:induction false} PassRecords(st: PassState, locs: seq<Location>, env: Env)
    ensures |st.data| <= |Pass(st, locs, env).data| <= |st.data| + |locs|
    ensures Pass(st, locs, env).data[..|st.data|] == st.data
    ensures forall k :: |st.data| <= k < |Pass(st, locs, env).data| ==>
              var r := Pass(st, locs, env).data[k];
              RecordOk(r) && exists i :: 0 <= i < |locs| && r.areaName == locs[i].areaName && r.outcode == locs[i].outcode
    decreases |locs|
  {
    if locs != [] {
      var n := |locs| - 1;
      var prev := Pass(st, locs[..n], env);
      PassRecords(st, locs[..n], env);
      var next := Pass(st, locs, env);
      assert next.data[..|prev.data|] == prev.data;
      assert next.data[..|st.data|] == prev.data[..|st.data|];
      forall k | |st.data| <= k < |next.data|
        ensures RecordOk(next.data[k])
        ensures exists i :: 0 <= i < |locs| && next.data[k].areaName == locs[i].areaName
                                             && next.data[k].outcode == locs[i].outcode
      {
        if k < |prev.data| {
          var i :| 0 <= i < n && prev.data[k].areaName == locs[..n][i].areaName
                              && prev.data[k].outcode == locs[..n][i].outcode;
          assert locs[..n][i] == locs[i];
        }
      }
    }
  }

  // ---------------------------------------------------------------------
  // The left merge

  /** One row of the merged table: the row and the record joined to it, if
      any. */
  type Merged = (Property, Option<Record>)

  predicate SameKey(p: Property, r: Record) {
    p.areaName == r.areaName && p.outcode == r.outcode
  }

  function Matches(p: Property, data: seq<Record>): (ms: seq<Record>)
    ensures forall r :: r in ms <==> r in data && SameKey(p, r)
    decreases |data|
  {
    if data == [] then []
    else
      var n := |data| - 1;
      assert data == data[..n] + [data[n]];
      Matches(p, data[..n]) + if SameKey(p, data[n]) then [data[n]] else []
  }

  /** `merge(..., on=["area name", "outcode"], how="left")` for one row: one
      output row per matching record, or the row alone when none matches. */
  function JoinRow(p: Property, data: seq<Record>): (js: seq<Merged>)
    ensures |js| > 0 && forall j :: 0 <= j < |js| ==> js[j].0 == p
  {
    var ms := Matches(p, data);
    if ms == [] then [(p, None)]
    else seq(|ms|, j requires 0 <= j < |ms| => (p, Some(ms[j])))
  }

  function LeftMerge(rows: seq<Property>, data: seq<Record>): seq<Merged>
    decreases |rows|
  {
    if rows == [] then [] else JoinRow(rows[0], data) + LeftMerge(rows[1..], data)
  }

  /** No two records share an area name and an outcode. */
  predicate UniqueKeys(data: seq<Record>) {
    forall i, j :: 0 <= i < j < |data| ==> !(data[i].areaName == data[j].areaName && data[i].outcode == data[j].outcode)
  }

  /** At most one record matches a row when the keys are unique. */
  lemma UniqueMatch(p: Property, data: seq<Record>)
    requires UniqueKeys(data)
    ensures |Matches(p, data)| <= 1
  {
    var ms := Matches(p, data);
    if |ms| > 1 {
      assert ms[0] in data && ms[1] in data;
      var i :| 0 <= i < |data| && data[i] == ms[0];
      var j :| 0 <= j < |data| && data[j] == ms[1];
      MatchesDistinct(p, data);
    }
  }

  /** Matching keeps records at distinct positions apart. */
  lemma {:induction false} MatchesDistinct(p: Property, data: seq<Record>)
    requires UniqueKeys(data)
    ensures forall a, b :: 0 <= a < b < |Matches(p, data)| ==> Matches(p, data)[a] != Matches(p, data)[b]
    decreases |data|
  {
    if data != [] {
      var n := |data| - 1;
      MatchesDistinct(p, data[..n]);
      var ms := Matches(p, data[..n]);
      forall a | 0 <= a < |ms|
        ensures ms[a] != data[n]
      {
        assert ms[a] in data[..n];
        var i :| 0 <= i < n && data[..n][i] == ms[a];
        assert data[i] == ms[a];
      }
    }
  }

  /** Every row of the table survives the merge: the merged table is at
      least as long and carries each of the table's rows. */
  lemma {:induction false} LeftMergeKeepsRows(rows: seq<Property>, data: seq<Record>)
    ensures |LeftMerge(rows, data)| >= |rows|
    ensures forall p :: p in rows ==> exists j :: 0 <= j < |LeftMerge(rows, data)| && LeftMerge(rows, data)[j].0 == p
    decreases |rows|
  {
    if rows != [] {
      LeftMergeKeepsRows(rows[1..], data);
      var js := JoinRow(rows[0], data);
      var rest := LeftMerge(rows[1..], data);
      var all := js + rest;
      forall p | p in rows
        ensures exists j :: 0 <= j < |all| && all[j].0 == p
      {
        if p == rows[0] {
          assert all[0].0 == p;
        } else {
          assert p in rows[1..];
          var j :| 0 <= j < |rest| && rest[j].0 == p;
          assert all[|js| + j].0 == p;
        }
      }
    }
  }

  /** ... and carries nothing else: every merged row is a row of the table. */
  lemma {:induction false} LeftMergeOnlyRows(rows: seq<Property>, data: seq<Record>)
    ensures forall j :: 0 <= j < |LeftMerge(rows, data)| ==> LeftMerge(rows, data)[j].0 in rows
    decreases |rows|
  {
    if rows != [] {
      LeftMergeOnlyRows(rows[1..], data);
      var js := JoinRow(rows[0], data);
      var rest := LeftMerge(rows[1..], data);
      var all := js + rest;
      forall j | 0 <= j < |all|
        ensures all[j].0 in rows
      {
        if j >= |js| {
          assert all[j] == rest[j - |js|];
          assert rest[j - |js|].0 in rows[1..];
        }
      }
    }
  }

  /** With unique keys, the merge has one row per table row, in order, and
      each carries its matching record when there is one. */
  lemma {:induction false} LeftMergeUnique(rows: seq<Property>, data: seq<Record>)
    requires UniqueKeys(data)
    ensures |LeftMerge(rows, data)| == |rows|
    ensures forall i :: 0 <= i < |rows| ==>
              var e := LeftMerge(rows, data)[i];
              && e.0 == rows[i]
              && (e.1.Some? <==> exists r :: r in data && SameKey(rows[i], r))
              && (e.1.Some? ==> e.1.value in data && SameKey(rows[i], e.1.value))
    decreases |rows|
  {
    if rows != [] {
      LeftMergeUnique(rows[1..], data);
      UniqueMatch(rows[0], data);
      var ms := Matches(rows[0], data);
      var js := JoinRow(rows[0], data);
      assert |js| == 1;
      var rest := LeftMerge(rows[1..], data);
      forall i | 1 <= i < |rows|
        ensures LeftMerge(rows, data)[i] == rest[i - 1] && rows[i] == rows[1..][i - 1]
      {
      }
      if ms != [] {
        assert ms[0] in ms;
      }
    }
  }

  /** The table as it is when no work address was entered. */
  function Unenriched(rows: seq<Property>): (ms: seq<Merged>)
    ensures |ms| == |rows|
    ensures forall i :: 0 <= i < |rows| ==> ms[i] == (rows[i], None)
  {
    seq(|rows|, i requires 0 <= i < |rows| => (rows[i], None))
  }

  // ---------------------------------------------------------------------
  // The cache object

  /** `commute_cache`, with a count of the fetches it has made. */
  class CommuteCache {
    var entries: map<string, Dict<string>>
    var fetches: nat

    /** The cache as loaded from the cache file. */
    constructor (loaded: map<string, Dict<string>>)
      requires forall k :: k in loaded ==> DistinctKeys(loaded[k])
      ensures entries == loaded && fetches == 0
    {
      entries := loaded;
      fetches := 0;
    }

    /** Lines 106-110 for one origin. */
    method Lookup(origin: string, destination: string, respond: (string, string, string) -> Response)
      returns (durations: Dict<string>)
      modifies this
      ensures var l := Resolve(old(entries), old(fetches), origin, destination, respond);
              durations == l.durations && entries == l.entries && fetches == l.fetches
      ensures IsHit(old(entries), Key(origin, destination)) ==>
                durations == old(entries)[Key(origin, destination)] && entries == old(entries) && fetches == old(fetches)
      ensures !IsHit(old(entries), Key(origin, destination)) ==>
                && durations == CommuteTexts(origin, destination, respond)
                && fetches == old(fetches) + 1
                && entries == if durations != [] then old(entries)[Key(origin, destination) := durations] else old(entries)
    {
      var key := Key(origin, destination);
      if key in entries && entries[key] != [] {
        durations := entries[key];
      } else {
        durations := GetCommuteTimesAllModes(origin, destination, respond);
        fetches := fetches + 1;
        if durations != [] {
          entries := entries[key := durations];
        }
      }
    }

    /** Lines 100-116: nothing happens without a work address; otherwise
        every distinct location is looked up once, the best valid mode of
        each becomes a record, and the records are merged onto the rows. */
    method Enrich(rows: seq<Property>, workAddress: string, origin: (real, real) -> string,
                  respond: (string, string, string) -> Response)
      returns (merged: seq<Merged>)
      modifies this
      ensures workAddress == "" ==>
                merged == Unenriched(rows) && entries == old(entries) && fetches == old(fetches)
      ensures workAddress != "" ==>
                var st := Pass(PassState(old(entries), old(fetches), []), DropDuplicates(Locations(rows)),
                               Env(workAddress, origin, respond));
                entries == st.entries && fetches == st.fetches && merged == LeftMerge(rows, st.data)
    {
      if workAddress == "" {
        merged := Unenriched(rows);
        return;
      }
      ghost var init := PassState(entries, fetches, []);
      var env := Env(workAddress, origin, respond);
      var locs := DropDuplicates(Locations(rows));
      var data: seq<Record> := [];
      for i := 0 to |locs|
        invariant PassState(entries, fetches, data) == Pass(init, locs[..i], env)
      {
        var loc := locs[i];
        ghost var before := PassState(entries, fetches, data);
        var durations := Lookup(origin(loc.latitude, loc.longitude), workAddress, respond);
        var best := BestRecord(loc, durations);
        if best.Some? {
          data := data + [best.value];
        }
        assert PassState(entries, fetches, data) == Step(before, loc, env);
        PassSnoc(init, locs, i, env);
      }
      assert locs[..|locs|] == locs;
      merged := LeftMerge(rows, data);
    }
  }
}
