/** Validation of the Welcomes riding along with a commit (server/internal/httpserver/mls_handlers.go). */
module Welcomes {
  import opened Bytes
  import opened Sequences

  const MAX_WELCOMES: nat := 8
  const MAX_DEVICES: nat := 200
  const MAX_WELCOME_TEXT: nat := 350000

  type Device = nat  // 0 is uuid.Nil
  type Blob = seq<byte>
  type Base64 = string -> Option<Blob>

  datatype Request = Request(devices: seq<Device>, welcome: string)
  datatype Delivery = Delivery(devices: seq<Device>, welcome: Blob)

  /** decodeBlob: the bounds are on the encoded text. */
  function DecodeBlob(decode: Base64, text: string, maxLen: nat): Option<Blob> {
    if text == "" || |text| > maxLen then None else decode(text)
  }

  /** Every device id named by the request, Welcome after Welcome. */
  function AllDevices(requests: seq<Request>): seq<Device> {
    if requests == [] then [] else AllDevices(requests[..|requests| - 1]) + requests[|requests| - 1].devices
  }

  ghost predicate WellShaped(decode: Base64, r: Request) {
    1 <= |r.devices| <= 200 && 1 <= |r.welcome| <= 350000 && decode(r.welcome).Some?
  }

  /**
   What an acceptable request is: few enough Welcomes, each naming 1 to 200
   devices with a decodable blob, and no device nil or named twice anywhere.
   */
  ghost predicate Acceptable(decode: Base64, requests: seq<Request>) {
    && |requests| <= 8
    && (forall i | 0 <= i < |requests| :: WellShaped(decode, requests[i]))
    && 0 !in AllDevices(requests) && Distinct(AllDevices(requests))
  }

  lemma {:induction false} DevicesPrefix(requests: seq<Request>, i: nat)
    requires i <= |requests|
    ensures AllDevices(requests[..i]) <= AllDevices(requests)
    decreases |requests|
  {
    if i == |requests| {
      assert requests[..i] == requests;
    } else {
      DevicesPrefix(requests[..|requests| - 1], i);
      assert requests[..|requests| - 1][..i] == requests[..i];
    }
  }

  /** A prefix that already names a device twice, or names nil, spoils the whole request. */
  lemma BadPrefix(requests: seq<Request>, i: nat, j: nat)
    requires i < |requests| && j < |requests[i].devices|
    requires var d := requests[i].devices[j]; d == 0 || d in AllDevices(requests[..i]) + requests[i].devices[..j]
    ensures 0 in AllDevices(requests) || !Distinct(AllDevices(requests))
  {
    var before := AllDevices(requests[..i]);
    var all := AllDevices(requests);
    assert requests[..i + 1][..i] == requests[..i];
    DevicesPrefix(requests, i + 1);
    assert before + requests[i].devices <= all;
    var k := |before| + j;
    assert all[k] == requests[i].devices[j];
    if requests[i].devices[j] != 0 {
      var named := before + requests[i].devices[..j];
      var p :| 0 <= p < |named| && named[p] == requests[i].devices[j];
      assert all[p] == named[p];
    }
  }

  lemma NoDevices(requests: seq<Request>)
    ensures var none := AllDevices(requests[..0]); Distinct(none) && 0 !in none && Elements(none) == {}
  {
  }

  lemma MoreDevices(requests: seq<Request>, i: nat)
    requires i < |requests|
    ensures AllDevices(requests[..i + 1]) == AllDevices(requests[..i]) + requests[i].devices
  {
    assert requests[..i + 1][..i] == requests[..i];
  }

  /** commitWelcomes: accepts exactly the acceptable requests, and hands their blobs on in order. */
  method CommitWelcomes(decode: Base64, welcomes: Option<seq<Request>>) returns (out: Option<seq<Delivery>>)
    ensures welcomes.None? ==> out == Some([])
    ensures welcomes.Some? ==> (out.Some? <==> Acceptable(decode, welcomes.value))
    ensures welcomes.Some? && out.Some? ==>
              && |out.value| == |welcomes.value|
              && forall i | 0 <= i < |out.value| ::
                   && out.value[i].devices == welcomes.value[i].devices
                   && Some(out.value[i].welcome) == decode(welcomes.value[i].welcome)
  {
    hide Distinct;
    hide Elements;
    hide AllDevices;
    if welcomes.None? {
      return Some([]);
    }
    var requests := welcomes.value;
    if |requests| > MAX_WELCOMES {
      return None;
    }
    var seen: set<Device> := {};
    NoDevices(requests);
    var deliveries: seq<Delivery> := [];
    for i := 0 to |requests|
      invariant |deliveries| == i
      invariant forall k | 0 <= k < i :: WellShaped(decode, requests[k])
      invariant forall k | 0 <= k < i :: deliveries[k].devices == requests[k].devices
      invariant forall k | 0 <= k < i ::
                  Some(deliveries[k].welcome) == decode(requests[k].welcome)
      invariant Distinct(AllDevices(requests[..i])) && 0 !in AllDevices(requests[..i])
      invariant seen == Elements(AllDevices(requests[..i]))
    {
      var d := requests[i];
      if |d.devices| < 1 || |d.devices| > MAX_DEVICES {
        return None;
      }
      var ok, added := AddDevices(requests, i, seen);
      if !ok {
        return None;
      }
      seen := added;
      MoreDevices(requests, i);
      var blob := DecodeBlob(decode, d.welcome, MAX_WELCOME_TEXT);
      if blob.None? {
        return None;
      }
      deliveries := deliveries + [Delivery(d.devices, blob.value)];
    }
    assert requests[..|requests|] == requests;
    return Some(deliveries);
  }

  /** The inner loop: one Welcome's devices against everything seen so far. */
  method AddDevices(requests: seq<Request>, i: nat, before: set<Device>) returns (ok: bool, seen: set<Device>)
    requires i < |requests| && before == Elements(AllDevices(requests[..i]))
    requires Distinct(AllDevices(requests[..i])) && 0 !in AllDevices(requests[..i])
    ensures ok ==> var all := AllDevices(requests[..i]) + requests[i].devices;
                   Distinct(all) && 0 !in all && seen == Elements(all)
    ensures !ok ==> 0 in AllDevices(requests) || !Distinct(AllDevices(requests))
  {
    seen := before;
    var ids := requests[i].devices;
    ghost var start := AllDevices(requests[..i]);
    assert start + ids[..0] == start;
    for j := 0 to |ids|
      invariant Distinct(start + ids[..j]) && 0 !in start + ids[..j]
      invariant seen == Elements(start + ids[..j])
    {
      if ids[j] == 0 || ids[j] in seen {
        BadPrefix(requests, i, j);
        return false, seen;
      }
      seen := seen + {ids[j]};
      assert start + ids[..j + 1] == (start + ids[..j]) + [ids[j]];
    }
    assert ids[..|ids|] == ids;
    return true, seen;
  }
}
