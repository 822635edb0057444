/** One request and its redirects, with the network as a parameter. */
module Exchange {
  import opened Strings
  import opened Results
  import opened Url
  import opened Status
  import opened Certificate
  import opened Stream

  /**
   * What lies beyond the socket: the chain the TLS library builds for the
   * host's certificate, the successive reads of the answer to a request
   * line, and the decoder applied to the bytes of one read.
   */
  datatype Network = Network(
    certificates: string -> seq<seq<bv8>>,
    answer: string -> seq<seq<bv8>>,
    decode: seq<bv8> -> string)

  /**
   * One hop of `Request`: split the reference, connect to the host and let
   * the trust policy judge its chain, send the request line, read and decode
   * the answer, split it into lines at '\n' and interpret them. Nothing is
   * interpreted unless the policy accepted the host's chain.
   */
  function Reply(url: string, net: Network): (r: Result<Outcome>)
    ensures !StartsWith(url, Scheme) ==> r == Err(InvalidFormat)
    ensures r.Ok? ==>
              && PrepareLink(url).Ok?
              && ValidateCertificate(net.certificates(PrepareLink(url).value.host)) == Ok(true)
    ensures PrepareLink(url).Ok? && ValidateCertificate(net.certificates(PrepareLink(url).value.host)) != Ok(true) ==>
              r.Err? && r.error in {EmptyChain, HandshakeRejected}
  {
    match PrepareLink(url)
    case Err(e) => Err(e)
    case Ok(link) =>
      match ValidateCertificate(net.certificates(link.host))
      case Err(e) => Err(e)
      case Ok(trusted) =>
        if !trusted then Err(HandshakeRejected)
        else
          var text := Received(net.answer(RequestLine(link)), net.decode);
          Respond(Split(text, '\n'))
  }

  /**
   * Once the chain is accepted, the hop's outcome is `Respond` applied to the
   * answer to the request line, decoded and split at '\n' only: when that
   * text is `lines` joined by '\n', the outcome is `Respond(lines)`.
   */
  lemma ReplyInterpretsAnswer(url: string, net: Network, lines: seq<string>)
    requires PrepareLink(url).Ok?
    requires ValidateCertificate(net.certificates(PrepareLink(url).value.host)) == Ok(true)
    requires |lines| >= 1 && forall k :: 0 <= k < |lines| ==> '\n' !in lines[k]
    requires Received(net.answer(RequestLine(PrepareLink(url).value)), net.decode) == Join(lines, '\n')
    ensures Reply(url, net) == Respond(lines)
  {
    SplitJoin(lines, '\n');
  }

  /**
   * The recursion of `Request` on a redirect, given the hop it repeats and
   * following at most `fuel` redirects. A run that succeeds never ends on a
   * redirect: every redirect was followed.
   */
  function Follow(url: string, hop: string -> Result<Outcome>, fuel: nat): (r: Result<Outcome>)
    ensures r.Ok? ==> !r.value.Redirect?
    ensures !(hop(url).Ok? && hop(url).value.Redirect?) ==> r == hop(url)
    decreases fuel
  {
    match hop(url)
    case Err(e) => Err(e)
    case Ok(Redirect(target)) =>
      if fuel == 0 then Err(RedirectLimit) else Follow(target, hop, fuel - 1)
    case Ok(o) => Ok(o)
  }

  /** `Request`: the hop is `Reply` against the server. */
  function Fetch(url: string, net: Network, fuel: nat): (r: Result<Outcome>)
    ensures r.Ok? ==> StartsWith(url, Scheme) && !r.value.Redirect?
  {
    Follow(url, u => Reply(u, net), fuel)
  }

  /** Following a redirect is the whole exchange again, against the redirect target. */
  lemma FollowRedirect(url: string, target: string, hop: string -> Result<Outcome>, fuel: nat)
    requires hop(url) == Ok(Redirect(target))
    ensures Follow(url, hop, fuel + 1) == Follow(target, hop, fuel)
  {
  }

  /** A run that did not run out of fuel gives the same answer with more fuel. */
  lemma {:induction false} FollowStable(url: string, hop: string -> Result<Outcome>, fuel: nat, more: nat)
    requires Follow(url, hop, fuel) != Err(RedirectLimit)
    ensures Follow(url, hop, fuel + more) == Follow(url, hop, fuel)
    decreases fuel
  {
    var r := hop(url);
    if r.Ok? && r.value.Redirect? {
      FollowStable(r.value.target, hop, fuel - 1, more);
    }
  }

  /**
   * A reference that redirects to itself is never left: no bound on the
   * redirects is enough, as the unbounded recursion of `Request` shows.
   */
  lemma {:induction false} SelfRedirectNeverEnds(url: string, hop: string -> Result<Outcome>, fuel: nat)
    requires hop(url) == Ok(Redirect(url))
    ensures Follow(url, hop, fuel) == Err(RedirectLimit)
    decreases fuel
  {
    if fuel > 0 {
      SelfRedirectNeverEnds(url, hop, fuel - 1);
    }
  }

  /** A redirect target that still carries the status line's '\r' is requested as the bare target. */
  lemma CarriageReturnIgnored(url: string, net: Network)
    ensures Reply(url + "\r", net) == Reply(url, net)
  {
    TrailingWhiteSpaceIgnored(url, '\r');
  }
}
