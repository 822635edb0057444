/** The failures an exchange can end in, and the result type that carries them. */
module Results {

  /** Every exception the client lets escape, plus the fuel bound of the redirect model. */
  datatype Error =
    | InvalidFormat           // the reference does not start with "gemini://"
    | MalformedStatusLine     // the status line has no second space-separated token
    | MissingStatusCode       // the code token is empty, so its first character does not exist
    | UnsupportedContentType  // a non-redirect whose meta token is not "text/gemini..."
    | UnknownResponseCode     // a class digit outside 2, 3, 4 and 5
    | EmptyChain              // the chain handed to the trust policy is empty
    | HandshakeRejected       // the trust policy refused the chain
    | RedirectLimit           // the fuel of the redirect model ran out

  datatype Result<T> = Ok(value: T) | Err(error: Error)
}
