/**
 * The NTRIP version 1 handshake the caster connection performs: one
 * HTTP/1.0-style GET request for the mountpoint with a Basic credential
 * (RFC 7617 section 2), then one response chunk, which is accepted when it
 * contains the status text `ICY 200 OK` anywhere.
 */
module Handshake {
  import opened Wrappers
  import opened Bytes
  import Base64

  const RequestHead: string := "GET /"
  const RequestMiddle: string :=
    " HTTP/1.0\r\n"
    + "User-Agent: NTRIP ABC/1.2.3\r\n"
    + "Accept: */*\r\n"
    + "Connection: close\r\n"
    + "Authorization: Basic "
  const RequestEnd: string := "\r\n\r\n"
  const SuccessMarker: string := "ICY 200 OK"

  /** `pat` occurs in `s` starting at index `i`. */
  predicate OccursAt(s: string, pat: string, i: nat) {
    i + |pat| <= |s| && s[i..i + |pat|] == pat
  }

  /** The first index at or after `from` where `pat` occurs in `s`. */
  function IndexOf(s: string, pat: string, from: nat): (r: Option<nat>)
    ensures r.Some? ==> from <= r.value && OccursAt(s, pat, r.value)
    ensures forall j :: from <= j && (r.None? || j < r.value) ==> !OccursAt(s, pat, j)
    decreases |s| - from
  {
    if from + |pat| > |s| then None
    else if s[from..from + |pat|] == pat then Some(from)
    else IndexOf(s, pat, from + 1)
  }

  /** Python's `pat in s` on strings. */
  predicate Contains(s: string, pat: string) {
    IndexOf(s, pat, 0).Some?
  }

  lemma ContainsIff(s: string, pat: string)
    ensures Contains(s, pat) <==> exists i :: OccursAt(s, pat, i)
  {
    if exists i :: OccursAt(s, pat, i) {
      var i :| OccursAt(s, pat, i);
      assert IndexOf(s, pat, 0).Some?;
    }
  }

  /** When `k` is the first occurrence, the search finds exactly `k`. */
  lemma IndexOfFirst(s: string, pat: string, k: nat)
    requires OccursAt(s, pat, k)
    requires forall j :: 0 <= j < k ==> !OccursAt(s, pat, j)
    ensures IndexOf(s, pat, 0) == Some(k)
  {
  }

  /**
   * The credential of the `Authorization: Basic` header: user-id, a colon
   * and the password, as octets, base 64 encoded.
   */
  function Credential(username: string, password: string): (c: string)
    requires IsByteString(username + ":" + password)
    ensures Base64.Decode(c) == Some(ToBytes(username + ":" + password))
  {
    var c := Base64.Encode(ToBytes(username + ":" + password));
    Base64.DecodeEncode(ToBytes(username + ":" + password));
    c
  }

  /** The request sent once the TCP connection is open. */
  function Request(mountpoint: string, username: string, password: string): (r: string)
    requires IsByteString(username + ":" + password)
    ensures |r| >= |RequestHead| + |mountpoint| + |RequestMiddle| + |RequestEnd|
    ensures r[..|RequestHead|] == RequestHead && r[|r| - |RequestEnd|..] == RequestEnd
  {
    RequestHead + mountpoint + RequestMiddle + Credential(username, password) + RequestEnd
  }

  /** The handshake accepts a response chunk that contains the success marker. */
  predicate Accepted(response: string) {
    Contains(response, SuccessMarker)
  }

  /**
   * The whole chunk is searched: the marker is accepted wherever it is,
   * also after the blank line that ends the response headers.
   */
  lemma AcceptedAnywhere(before: string, after: string)
    ensures Accepted(before + SuccessMarker + after)
  {
    var r := before + SuccessMarker + after;
    assert r[|before|..|before| + |SuccessMarker|] == SuccessMarker;
    assert OccursAt(r, SuccessMarker, |before|);
    ContainsIff(r, SuccessMarker);
  }

  /** A chunk shorter than the marker, the empty chunk included, is a failure. */
  lemma ShortResponseRejected(response: string)
    requires |response| < |SuccessMarker|
    ensures !Accepted(response)
  {
    ContainsIff(response, SuccessMarker);
  }

  /** A chunk accepted by the handshake stays accepted with more text around it. */
  lemma AcceptedExtends(before: string, response: string, after: string)
    requires Accepted(response)
    ensures Accepted(before + response + after)
  {
    ContainsIff(response, SuccessMarker);
    var i: nat :| OccursAt(response, SuccessMarker, i);
    var r := before + response + after;
    assert r[|before| + i..|before| + i + |SuccessMarker|] == response[i..i + |SuccessMarker|];
    assert OccursAt(r, SuccessMarker, |before| + i);
    ContainsIff(r, SuccessMarker);
  }

  /**
   * One connect-and-authenticate attempt as seen from outside the socket;
   * the retry on EAGAIN is folded into `Answered`, which carries the first
   * chunk a read returned.
   */
  datatype Attempt =
    | ConnectFailed               // creating or connecting the socket raised: nothing is sent
    | RecvFailed                  // the request was sent, then a read raised a real error
    | Answered(response: string)  // the request was sent and this chunk came back

  /** The attempt reports success: a chunk came back and it holds the marker. */
  predicate Succeeds(a: Attempt) {
    a.Answered? && Accepted(a.response)
  }

  /** Success is exactly an answer that holds the marker somewhere. */
  lemma SucceedsIff(a: Attempt)
    ensures Succeeds(a) <==> a.Answered? && exists i :: OccursAt(a.response, SuccessMarker, i)
  {
    if a.Answered? {
      ContainsIff(a.response, SuccessMarker);
    }
  }

  /** What a caster can read back out of a request. */
  datatype ParsedRequest = ParsedRequest(mountpoint: string, username: string, password: string)

  /**
   * Reads a request of the shape above: the mountpoint runs up to the first
   * occurrence of the fixed header text, the credential is the rest up to
   * the final blank line.
   */
  function ParseRequest(r: string): Option<ParsedRequest> {
    if |r| < |RequestHead| + |RequestEnd| || r[..|RequestHead|] != RequestHead
      || r[|r| - |RequestEnd|..] != RequestEnd then None
    else ParseBody(r[|RequestHead|..|r| - |RequestEnd|])
  }

  /** The text between `GET /` and the final blank line. */
  function ParseBody(body: string): Option<ParsedRequest> {
    match IndexOf(body, RequestMiddle, 0)
    case None => None
    case Some(i) =>
      match Base64.Decode(body[i + |RequestMiddle|..])
      case None => None
      case Some(octets) => ParseCredential(body[..i], ToText(octets))
  }

  /** The decoded credential splits at its first colon, as RFC 7617 section 2 prescribes. */
  function ParseCredential(mountpoint: string, userPass: string): Option<ParsedRequest> {
    match IndexOf(userPass, ":", 0)
    case None => None
    case Some(k) => Some(ParsedRequest(mountpoint, userPass[..k], userPass[k + 1..]))
  }

  /** The first occurrence of `sep` in `prefix + sep + rest` is right after `prefix` when `prefix` lacks `sep`'s first character. */
  lemma FirstSeparator(prefix: string, sep: string, rest: string)
    requires |sep| > 0
    requires forall i :: 0 <= i < |prefix| ==> prefix[i] != sep[0]
    ensures IndexOf(prefix + sep + rest, sep, 0) == Some(|prefix|)
  {
    var s := prefix + sep + rest;
    assert OccursAt(s, sep, |prefix|) by {
      assert s[|prefix|..|prefix| + |sep|] == sep;
    }
    forall j | 0 <= j < |prefix|
      ensures !OccursAt(s, sep, j)
    {
      assert s[j] == prefix[j];
      if j + |sep| <= |s| {
        assert s[j..j + |sep|][0] == s[j];
      }
    }
    IndexOfFirst(s, sep, |prefix|);
  }

  lemma ParseCredentialRoundTrip(mountpoint: string, username: string, password: string)
    requires forall i :: 0 <= i < |username| ==> username[i] != ':'
    ensures ParseCredential(mountpoint, username + ":" + password)
      == Some(ParsedRequest(mountpoint, username, password))
  {
    var userPass := username + ":" + password;
    FirstSeparator(username, ":", password);
    assert userPass[..|username|] == username;
    assert userPass[|username| + 1..] == password;
  }

  lemma ParseBodyRoundTrip(mountpoint: string, credential: string, octets: seq<Byte>)
    requires forall i :: 0 <= i < |mountpoint| ==> mountpoint[i] != ' '
    requires Base64.Decode(credential) == Some(octets)
    ensures ParseBody(mountpoint + RequestMiddle + credential)
      == ParseCredential(mountpoint, ToText(octets))
  {
    var body := mountpoint + RequestMiddle + credential;
    assert RequestMiddle[0] == ' ';
    FirstSeparator(mountpoint, RequestMiddle, credential);
    assert body[..|mountpoint|] == mountpoint;
    assert body[|mountpoint| + |RequestMiddle|..] == credential;
  }

  lemma Regroup(a: string, b: string, c: string, d: string, e: string)
    ensures a + b + c + d + e == a + (b + c + d) + e
  {
  }

  lemma ParseFraming(body: string)
    ensures ParseRequest(RequestHead + body + RequestEnd) == ParseBody(body)
  {
    var r := RequestHead + body + RequestEnd;
    assert r[..|RequestHead|] == RequestHead;
    assert r[|r| - |RequestEnd|..] == RequestEnd;
    assert r[|RequestHead|..|r| - |RequestEnd|] == body;
  }

  /**
   * A caster reads back the mountpoint, user-id and password the request was
   * built from, provided the mountpoint has no space (it ends the request
   * line) and the user-id has no colon (RFC 7617 section 2 forbids one).
   */
  lemma ParseRequestRoundTrip(mountpoint: string, username: string, password: string)
    requires forall i :: 0 <= i < |mountpoint| ==> mountpoint[i] != ' '
    requires forall i :: 0 <= i < |username| ==> username[i] != ':'
    requires IsByteString(username + ":" + password)
    ensures ParseRequest(Request(mountpoint, username, password))
      == Some(ParsedRequest(mountpoint, username, password))
  {
    var userPass := username + ":" + password;
    var cred := Credential(username, password);
    var body := mountpoint + RequestMiddle + cred;
    Regroup(RequestHead, mountpoint, RequestMiddle, cred, RequestEnd);
    ParseFraming(body);
    ParseBodyRoundTrip(mountpoint, cred, ToBytes(userPass));
    TextOfBytes(userPass);
    ParseCredentialRoundTrip(mountpoint, username, password);
  }
}
