/** The fixed-length body counter. */
module FixedBody {
  import opened Bytes
  import opened Types

  class FixedDecoder {
    var remaining: nat
    var totalDecoded: nat

    constructor (contentLength: nat)
      ensures remaining == contentLength && totalDecoded == 0
    {
      remaining := contentLength;
      totalDecoded := 0;
    }

    /** Accounts for len octets of body. Nothing changes when there are too many of them;
        otherwise what is left and what was seen keep their sum. */
    method Consume(len: nat) returns (status: Status)
      modifies this
      ensures len > old(remaining) ==>
                status == Error && remaining == old(remaining) && totalDecoded == old(totalDecoded)
      ensures len <= old(remaining) ==>
                && remaining == old(remaining) - len
                && totalDecoded == (old(totalDecoded) + len) % TWO_TO_THE_64
                && status == if remaining == 0 then Ok else Incomplete
    {
      if len > remaining {
        return Error;
      }
      remaining := remaining - len;
      totalDecoded := (totalDecoded + len) % TWO_TO_THE_64;
      return if remaining == 0 then Ok else Incomplete;
    }
  }
}
