/** The text protocol between the time authority and its clients: the request is one number
    (the client's send time), the reply is `"<echoed request>:<authority time>"`. */
module Protocol {
  import opened Wrappers
  import opened Text
  import opened Numbers

  const Separator: char := ':'

  /** The authority's reply to a request whose number was `request`, sent when its corrected
      clock read `serverTime` (`f"{request_time}:{current_time}"`). */
  function FormatReply(request: Decimal, serverTime: Decimal): string {
    Encode(request) + [Separator] + Encode(serverTime)
  }

  /** A reply holds exactly one separator. */
  lemma FormatReplyHasOneSeparator(request: Decimal, serverTime: Decimal)
    ensures multiset(FormatReply(request, serverTime))[Separator] == 1
  {
    NoSeparatorInNumber(request);
    NoSeparatorInNumber(serverTime);
    var a, b := Encode(request), Encode(serverTime);
    assert multiset(a + [Separator] + b) == multiset(a) + multiset{Separator} + multiset(b);
  }

  /** The authority's reading of a request: the whole text must be one number. */
  function ParseRequest(data: string): (r: Option<Decimal>)
    ensures r.Some? ==> data != []
  {
    Decode(data)
  }

  /** The client's reading of a reply: split on the separator, exactly two fields, both
      numbers (`t0_echo, t1 = map(float, response.split(':'))`). */
  function ParseReply(reply: string): (r: Option<(real, real)>)
    ensures r.Some? ==> multiset(reply)[Separator] == 1
  {
    var fields := Split(reply, Separator);
    if |fields| != 2 then None
    else
      match (Decode(fields[0]), Decode(fields[1]))
      case (Some(echo), Some(time)) => Some((echo.Value(), time.Value()))
      case _ => None
  }

  /** The text of a number never contains the separator. */
  lemma NoSeparatorInNumber(d: Decimal)
    ensures Separator !in Encode(d)
  {
  }

  /** A request in the form the client sends is read as that very number, and the reply to it
      starts with the request's text, echoed verbatim. */
  lemma RequestEchoed(request: Decimal, serverTime: Decimal)
    ensures ParseRequest(Encode(request)) == Some(request)
    ensures FormatReply(request, serverTime)[..|Encode(request)| + 1] == Encode(request) + [Separator]
  {
    DecodeEncode(request);
  }

  /** The client reads back from a reply exactly the two numbers the authority put in it. */
  lemma ReplyRoundTrip(request: Decimal, serverTime: Decimal)
    ensures ParseReply(FormatReply(request, serverTime)) == Some((request.Value(), serverTime.Value()))
  {
    NoSeparatorInNumber(request);
    NoSeparatorInNumber(serverTime);
    SplitPair(Encode(request), Encode(serverTime), Separator);
    DecodeEncode(request);
    DecodeEncode(serverTime);
  }

  /** A reply is accepted exactly when it has one separator and numbers on both sides of it. */
  lemma ParseReplyAccepts(reply: string)
    ensures ParseReply(reply).Some? <==>
      multiset(reply)[Separator] == 1 &&
      var k := IndexOf(reply, Separator).value;
      Decode(reply[..k]).Some? && Decode(reply[k + 1..]).Some?
  {
    var fields := Split(reply, Separator);
    if multiset(reply)[Separator] == 1 {
      var k := IndexOf(reply, Separator).value;
      assert reply == reply[..k] + [Separator] + reply[k + 1..];
      assert Separator !in reply[k + 1..] by {
        assert multiset(reply) == multiset(reply[..k]) + multiset{Separator} + multiset(reply[k + 1..]);
        assert multiset(reply[..k])[Separator] == 0;
      }
      SplitPair(reply[..k], reply[k + 1..], Separator);
    }
  }

  /** Any text without exactly one separator is rejected. */
  lemma ParseReplyRejectsColonCount(reply: string)
    requires multiset(reply)[Separator] != 1
    ensures ParseReply(reply) == None
  {
    assert |Split(reply, Separator)| != 2;
  }
}
