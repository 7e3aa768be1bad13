/** The rows of a fies2a file and the rows of the FIE table. */
module FieRow {
  import opened Common

  /** Times are nanoseconds since the Unix epoch. */
  const SECOND := 1_000_000_000

  type Address = seq<uint8>

  datatype Raw2a = Raw2a(
    pdId: uint32,
    captureSecond: uint16,
    nearReplyAddr: Address,      // empty for NULL
    farReplyAddr: Address,
    nearReplyAgeS: Option<uint8>,
    farReplyAgeS: Option<uint8>,
    fieTransitS: Option<uint8>)

  datatype Row = Row(
    pdId: uint32,
    captureTime: int,
    fieTransitS: Option<uint8>,
    nearReplyAddr: Option<Address>,
    farReplyAddr: Option<Address>,
    nearReplyRecvTime: Option<int>,
    farReplyRecvTime: Option<int>)

  function CaptureTime(raw: Raw2a, intervalStart: int): int {
    intervalStart + raw.captureSecond * SECOND
  }

  function RecvTime(capture: int, transit: Option<uint8>, addr: Address, age: Option<uint8>): Option<int> {
    if transit.None? || age.None? || addr == [] then None
    else Some(capture - (transit.value + age.value) * SECOND)
  }

  /** The 16-byte form of a 4- or 16-byte address; any other length is NULL. */
  function ToIPv6(b: Address): Option<Address> {
    if |b| == 4 then Some([0, 0, 0, 0, 0, 0, 0, 0, 0, 0, 0xff, 0xff] + b)
    else if |b| == 16 then Some(b)
    else None
  }

  /** Exactly the 4- and 16-byte addresses have a form: a 16-byte address its own,
      a 4-byte address that of ::ffff:a. Two of them share it only if they are the
      same address or one is the other mapped to IPv6. */
  lemma ToIPv6IsFaithful(a: Address, b: Address)
    ensures ToIPv6(a).Some? <==> |a| == 4 || |a| == 16
    ensures |a| == 16 ==> ToIPv6(a) == Some(a)
    ensures |a| == 4 ==> ToIPv6(a) == ToIPv6([0, 0, 0, 0, 0, 0, 0, 0, 0, 0, 0xff, 0xff] + a)
    ensures ToIPv6(a).Some? && ToIPv6(a) == ToIPv6(b) ==>
      a == b || (|a| == 16 && a[12..] == b) || (|b| == 16 && b[12..] == a)
  {
    if ToIPv6(a).Some? && ToIPv6(b).Some? {
      var x, y := ToIPv6(a).value, ToIPv6(b).value;
      assert |a| == 4 ==> x[12..] == a;
      assert |b| == 4 ==> y[12..] == b;
    }
  }

  function Convert2a(raw: Raw2a, intervalStart: int): Row {
    var capture := CaptureTime(raw, intervalStart);
    Row(raw.pdId, capture, raw.fieTransitS, ToIPv6(raw.nearReplyAddr), ToIPv6(raw.farReplyAddr),
        RecvTime(capture, raw.fieTransitS, raw.nearReplyAddr, raw.nearReplyAgeS),
        RecvTime(capture, raw.fieTransitS, raw.farReplyAddr, raw.farReplyAgeS))
  }
}
