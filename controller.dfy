/** `RPCController`: the per-call status object, a failed flag and an error text.
    Cancellation is present for the interface only and does nothing. */
module Controller {

  class RpcController {
    var failed: bool
    var errMsg: string

    constructor ()
      ensures !Failed() && ErrorText() == ""
    {
      failed, errMsg := false, "";
    }

    /** Back to the state a fresh controller has. */
    method Reset()
      modifies this
      ensures !Failed() && ErrorText() == ""
    {
      failed := false;
      errMsg := [];
    }

    function Failed(): bool
      reads this
    {
      failed
    }

    function ErrorText(): string
      reads this
    {
      errMsg
    }

    method StartCancel()
      ensures Failed() == old(Failed()) && ErrorText() == old(ErrorText())
    {
    }

    /** Marks the call failed; a later call replaces the text. */
    method SetFailed(reason: string)
      modifies this
      ensures Failed() && ErrorText() == reason
    {
      failed := true;
      errMsg := reason;
    }

    function IsCanceled(): (canceled: bool)
      ensures !canceled
    {
      false
    }

    /** The callback is never stored or run. */
    method NotifyOnCancel<Callback>(callback: Callback)
      ensures Failed() == old(Failed()) && ErrorText() == old(ErrorText())
    {
    }
  }
}
