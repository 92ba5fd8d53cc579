/** The Geocoding API helpers of api_geocode.py, over the decoded JSON
    reply: the address-component searches, the Greater London guard and
    the outcode of a postcode. */
module Geocode {
  import opened Common
  import opened PyStr

  /** One entry of `address_components`. */
  datatype Component = Component(longName: string, types: seq<string>)

  /** One entry of `results`; `lat`/`lng` stand for `geometry.location`. */
  datatype GeoResult = GeoResult(lat: real, lng: real, formattedAddress: string, components: seq<Component>)

  /** What `requests.get(...).json()` produced: a body whose top-level keys
      may be missing, or the exception one of the two calls raised. */
  datatype GeoReply = GeoBody(status: Option<string>, results: Option<seq<GeoResult>>) | GeoRaised(error: string)

  /** The dict `geocode_address` returns. */
  datatype Geocoded = Geocoded(lat: real, lng: real, postcode: Option<string>,
                               locality: Option<string>, fullAddress: string)

  /** `c["types"]` holds one of the wanted types. */
  predicate HasType(c: Component, wanted: seq<string>) {
    exists w :: w in wanted && w in c.types
  }

  /** `next((c["long_name"] for c in components if <type test>), None)`. */
  function FirstNamed(components: seq<Component>, wanted: seq<string>): (r: Option<string>)
    ensures r.None? <==> forall i :: 0 <= i < |components| ==> !HasType(components[i], wanted)
    ensures r.Some? ==> exists i :: 0 <= i < |components| && HasType(components[i], wanted)
                                    && r.value == components[i].longName
                                    && forall j :: 0 <= j < i ==> !HasType(components[j], wanted)
    decreases |components|
  {
    if components == [] then None
    else if HasType(components[0], wanted) then Some(components[0].longName)
    else
      var r := FirstNamed(components[1..], wanted);
      assert forall i :: 0 <= i < |components| - 1 ==> components[1..][i] == components[i + 1];
      r
  }

  /** The part both helpers share: `data["status"] == "OK"`, then
      `data["results"][0]`. `Ok(None)` is a status other than "OK". */
  function FirstResult(reply: GeoReply): (r: Result<Option<GeoResult>, Failure>)
    ensures r == Ok(None) <==> reply.GeoBody? && reply.status.Some? && reply.status.value != "OK"
    ensures r.Ok? && r.value.Some? <==>
              reply.GeoBody? && reply.status == Some("OK") && reply.results.Some? && |reply.results.value| > 0
    ensures r.Ok? && r.value.Some? ==> r.value.value == reply.results.value[0]
  {
    match reply
    case GeoRaised(e) => Err(Other(e))
    case GeoBody(status, results) =>
      match status
      case None => Err(KeyError)
      case Some(s) =>
        if s != "OK" then Ok(None)
        else
          match results
          case None => Err(KeyError)
          case Some(rs) => if |rs| == 0 then Err(IndexError) else Ok(Some(rs[0]))
  }

  const PostcodeTypes: seq<string> := ["postal_code"]
  const LocalityTypes: seq<string> := ["postal_town", "neighborhood"]
  const CountryTypes: seq<string> := ["country"]
  const AdminTypes: seq<string> := ["administrative_area_level_2"]

  /** `geocode_address`: `None` unless the status is "OK"; then only the
      first result is read. */
  function GeocodeAddress(reply: GeoReply): (r: Result<Option<Geocoded>, Failure>)
    ensures reply.GeoBody? && reply.status.Some? && reply.status.value != "OK" ==> r == Ok(None)
    ensures r.Ok? && r.value.Some? ==>
              && reply.GeoBody? && reply.status == Some("OK") && reply.results.Some? && |reply.results.value| > 0
              && var first := reply.results.value[0];
                 r.value.value == Geocoded(first.lat, first.lng,
                                           FirstNamed(first.components, PostcodeTypes),
                                           FirstNamed(first.components, LocalityTypes),
                                           first.formattedAddress)
    ensures reply.GeoBody? && reply.status == Some("OK") && reply.results.Some? && |reply.results.value| > 0 ==>
              var first := reply.results.value[0];
              r == Ok(Some(Geocoded(first.lat, first.lng,
                                    FirstNamed(first.components, PostcodeTypes),
                                    FirstNamed(first.components, LocalityTypes),
                                    first.formattedAddress)))
    ensures reply.GeoBody? && reply.status == Some("OK") && reply.results == Some([]) ==> r == Err(IndexError)
  {
    match FirstResult(reply)
    case Err(f) => Err(f)
    case Ok(None) => Ok(None)
    case Ok(Some(first)) =>
      var components := first.components;
      Ok(Some(Geocoded(first.lat, first.lng,
                       FirstNamed(components, PostcodeTypes),
                       FirstNamed(components, LocalityTypes),
                       first.formattedAddress)))
  }

  /** `postcode.split()[0] if postcode else None`: a missing or empty
      postcode gives `None`; a blank one raises `IndexError`. */
  function Outcode(postcode: Option<string>): (r: Result<Option<string>, Failure>)
    ensures (postcode.None? || postcode == Some("")) ==> r == Ok(None)
    ensures r.Err? <==> postcode.Some? && postcode.value != "" && AllSpace(postcode.value)
    ensures r.Err? ==> r.error == IndexError
    ensures r.Ok? && r.value.Some? ==> |r.value.value| > 0 && NoSpace(r.value.value)
  {
    match postcode
    case None => Ok(None)
    case Some(p) =>
      if p == "" then Ok(None)
      else
        SplitWhitespaceEmpty(p);
        var words := SplitWhitespace(p);
        if words == [] then Err(IndexError)
        else
          FirstWordShape(p);
          Ok(Some(words[0]))
  }

  /** A UK postcode "<outward> <inward>" gives its outward code back. */
  lemma OutcodeOfPostcode(outward: string, inward: string)
    requires |outward| > 0 && NoSpace(outward)
    ensures Outcode(Some(outward + " " + inward)) == Ok(Some(outward))
  {
    var p := outward + [' '] + inward;
    assert outward + " " + inward == p;
    FirstWord(outward, ' ', inward);
    assert p != "" by {
      assert |p| > 0;
    }
    OutcodeWords(p);
  }

  /** A postcode with a word in it gives its first word. */
  lemma OutcodeWords(p: string)
    requires p != "" && SplitWhitespace(p) != []
    ensures Outcode(Some(p)) == Ok(Some(SplitWhitespace(p)[0]))
  {
  }

  /** The Greater London guard of `reverse_geocode`. */
  predicate InGreaterLondon(components: seq<Component>) {
    FirstNamed(components, CountryTypes) == Some("United Kingdom")
    && FirstNamed(components, AdminTypes) == Some("Greater London")
  }

  /** `reverse_geocode`: `None` unless the status is "OK" and the first
      result's first country is "United Kingdom" and its first
      `administrative_area_level_2` is "Greater London"; then the outcode
      of its first postal code. */
  function ReverseGeocode(reply: GeoReply): (r: Result<Option<string>, Failure>)
    ensures reply.GeoBody? && reply.status.Some? && reply.status.value != "OK" ==> r == Ok(None)
    ensures r.Ok? && r.value.Some? ==>
              && reply.GeoBody? && reply.status == Some("OK") && reply.results.Some? && |reply.results.value| > 0
              && InGreaterLondon(reply.results.value[0].components)
              && r == Outcode(FirstNamed(reply.results.value[0].components, PostcodeTypes))
    ensures reply.GeoBody? && reply.status == Some("OK") && reply.results.Some? && |reply.results.value| > 0 ==>
              var components := reply.results.value[0].components;
              r == if InGreaterLondon(components) then Outcode(FirstNamed(components, PostcodeTypes)) else Ok(None)
  {
    match FirstResult(reply)
    case Err(f) => Err(f)
    case Ok(None) => Ok(None)
    case Ok(Some(first)) =>
      var components := first.components;
      if !InGreaterLondon(components) then Ok(None)
      else Outcode(FirstNamed(components, PostcodeTypes))
  }

  /** A first result outside Greater London gives `None`, whatever else the
      reply holds. */
  lemma OutsideLondonRejected(reply: GeoReply)
    requires reply.GeoBody? && reply.status == Some("OK") && reply.results.Some? && |reply.results.value| > 0
    requires !InGreaterLondon(reply.results.value[0].components)
    ensures ReverseGeocode(reply) == Ok(None)
  {
  }

  /** Only the first result is read: two replies that agree on the status
      and on the first result give the same answers. */
  lemma FirstResultOnly(a: GeoReply, b: GeoReply)
    requires a.GeoBody? && b.GeoBody? && a.status == b.status
    requires a.results.Some? && b.results.Some? && |a.results.value| > 0 && |b.results.value| > 0
    requires a.results.value[0] == b.results.value[0]
    ensures GeocodeAddress(a) == GeocodeAddress(b)
    ensures ReverseGeocode(a) == ReverseGeocode(b)
  {
  }

  /** A Greater London result without a postal code gives `None`. */
  lemma LondonWithoutPostcode(reply: GeoReply)
    requires reply.GeoBody? && reply.status == Some("OK") && reply.results.Some? && |reply.results.value| > 0
    requires InGreaterLondon(reply.results.value[0].components)
    requires forall i :: 0 <= i < |reply.results.value[0].components| ==>
               !HasType(reply.results.value[0].components[i], PostcodeTypes)
    ensures ReverseGeocode(reply) == Ok(None)
  {
  }

  /** A Greater London result whose first postal code is blank makes
      `postcode.split()[0]` raise `IndexError`. */
  lemma LondonBlankPostcode(reply: GeoReply, blank: string)
    requires reply.GeoBody? && reply.status == Some("OK") && reply.results.Some? && |reply.results.value| > 0
    requires InGreaterLondon(reply.results.value[0].components)
    requires FirstNamed(reply.results.value[0].components, PostcodeTypes) == Some(blank)
    requires blank != "" && AllSpace(blank)
    ensures ReverseGeocode(reply) == Err(IndexError)
  {
  }

  /** A Greater London result whose first postal code reads
      "<outward> <inward>" yields the outward code. */
  lemma LondonPostcodeAccepted(reply: GeoReply, outward: string, inward: string)
    requires reply.GeoBody? && reply.status == Some("OK") && reply.results.Some? && |reply.results.value| > 0
    requires InGreaterLondon(reply.results.value[0].components)
    requires FirstNamed(reply.results.value[0].components, PostcodeTypes) == Some(outward + " " + inward)
    requires |outward| > 0 && NoSpace(outward)
    ensures ReverseGeocode(reply) == Ok(Some(outward))
  {
    OutcodeOfPostcode(outward, inward);
  }
}
