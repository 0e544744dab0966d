/**
 * `reverse_geocode`: one request per hotspot, in order, each answer turned
 * into a display string on its own, so that a failed request only affects
 * its own hotspot's entry.
 */
module Geocode {
  import opened Points

  /** What one reverse-geocoding request came back with. */
  datatype Lookup =
    | Found(address: string)  // a location, with its display address
    | NotFound                // the service answered with no location
    | Failed(reason: string)  // the request raised; `reason` is the exception's text

  /**
   * The geocoding service: the answer it gives to the i-th request of a run,
   * made for a coordinate. Indexing by request lets repeated or transient
   * answers differ between requests.
   */
  type Geolocator = (nat, Point) -> Lookup

  const NotFoundText: string := "Endereço não encontrado"
  const ErrorPrefix: string := "Erro na geocodificação: "

  /** The address string recorded for one answer. */
  function AddressText(answer: Lookup): string
  {
    match answer
    case Found(address) => address
    case NotFound => NotFoundText
    case Failed(reason) => ErrorPrefix + reason
  }

  /**
   * The two failure strings can be told apart: an error entry always starts
   * with the error prefix, a not-found entry never does, and the error's
   * reason can be read back from its entry.
   */
  lemma FailureTextsDistinct(reason: string, other: string)
    ensures ErrorPrefix <= AddressText(Failed(reason))
    ensures !(ErrorPrefix <= AddressText(NotFound))
    ensures AddressText(Failed(reason))[|ErrorPrefix|..] == reason
    ensures AddressText(Failed(reason)) == AddressText(Failed(other)) ==> reason == other
  {
    assert |NotFoundText| < |ErrorPrefix|;
    if AddressText(Failed(reason)) == AddressText(Failed(other)) {
      assert reason == AddressText(Failed(reason))[|ErrorPrefix|..];
    }
  }

  /** The address list for `peaks`, built the way the loop builds it: one appended entry per hotspot. */
  function Resolve(peaks: seq<Point>, service: Geolocator): seq<string>
  {
    if |peaks| == 0 then []
    else
      var n := |peaks| - 1;
      Resolve(peaks[..n], service) + [AddressText(service(n, peaks[n]))]
  }

  /** One entry per hotspot, in hotspot order, each decided by that hotspot's own request. */
  lemma {:induction false} ResolveAligned(peaks: seq<Point>, service: Geolocator)
    ensures |Resolve(peaks, service)| == |peaks|
    ensures forall i :: 0 <= i < |peaks| ==> Resolve(peaks, service)[i] == AddressText(service(i, peaks[i]))
  {
    if |peaks| > 0 {
      var n := |peaks| - 1;
      var init := peaks[..n];
      ResolveAligned(init, service);
      var prev := Resolve(init, service);
      assert Resolve(peaks, service) == prev + [AddressText(service(n, peaks[n]))];
      forall i | 0 <= i < n
        ensures Resolve(peaks, service)[i] == AddressText(service(i, peaks[i]))
      {
        assert init[i] == peaks[i];
        assert Resolve(peaks, service)[i] == prev[i];
      }
    }
  }

  /**
   * A different answer to request i (a timeout, an error, no location)
   * changes entry i only: two services that agree on every other request
   * give the same entries everywhere else.
   */
  lemma FailureConfined(peaks: seq<Point>, s1: Geolocator, s2: Geolocator, i: nat)
    requires forall k :: 0 <= k < |peaks| && k != i ==> s1(k, peaks[k]) == s2(k, peaks[k])
    ensures |Resolve(peaks, s1)| == |Resolve(peaks, s2)| == |peaks|
    ensures forall k :: 0 <= k < |peaks| && k != i ==> Resolve(peaks, s1)[k] == Resolve(peaks, s2)[k]
  {
    ResolveAligned(peaks, s1);
    ResolveAligned(peaks, s2);
  }

  /** Ask the service about each hotspot in turn and record one string per answer. */
  method ReverseGeocode(peaks: seq<Point>, service: Geolocator) returns (addresses: seq<string>)
    ensures addresses == Resolve(peaks, service)
    ensures |addresses| == |peaks|
    ensures forall i :: 0 <= i < |peaks| ==> addresses[i] == AddressText(service(i, peaks[i]))
  {
    addresses := [];
    for i := 0 to |peaks|
      invariant addresses == Resolve(peaks[..i], service)
    {
      var answer := service(i, peaks[i]);
      addresses := addresses + [AddressText(answer)];
      assert peaks[..i + 1][..i] == peaks[..i];
    }
    assert peaks[..|peaks|] == peaks;
    ResolveAligned(peaks, service);
  }
}
