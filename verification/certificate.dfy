/** The trust policy the TLS handshake consults. */
module Certificate {
  import opened Results

  /**
   * `ValidateCertificate`: accept exactly when the raw bytes of the first
   * element of the chain built for the server's certificate equal those of the last. A chain of one
   * certificate is therefore always accepted; an empty chain has no first
   * element and the callback fails.
   */
  function ValidateCertificate(chain: seq<seq<bv8>>): (r: Result<bool>)
    ensures r.Err? <==> |chain| == 0
    ensures r.Err? ==> r.error == EmptyChain
    ensures r.Ok? ==> (r.value <==> chain[0] == chain[|chain| - 1])
    ensures |chain| == 1 ==> r == Ok(true)
  {
    if |chain| == 0 then Err(EmptyChain)
    else
      var found := chain[0];
      Ok(chain[|chain| - 1] == found)
  }

  /** The certificates between the first and the last play no part in the verdict. */
  lemma VerdictIgnoresMiddle(leaf: seq<bv8>, middle: seq<seq<bv8>>, root: seq<bv8>)
    ensures ValidateCertificate([leaf] + middle + [root]) == Ok(leaf == root)
  {
  }
}
