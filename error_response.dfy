/** The body of a 422 answer to a POST: a fixed error and the details collected. */
module Api {

  class ErrorResponse {
    /** Set once by the constructor; no method assigns it. */
    const error: string
    /** The details in the order they were added. */
    var details: seq<string>

    constructor (error: string)
      ensures this.error == error && details == []
      ensures IsDetailsEmpty()
    {
      this.error := error;
      details := [];
    }

    /** The error this response was built with. */
    function GetError(): (e: string)
      ensures e == error
    {
      error
    }

    /** The details added so far, oldest first. */
    function GetDetails(): (ds: seq<string>)
      reads this
      ensures ds == details
    {
      details
    }

    /** Appends `detail` at the end, keeping every earlier detail in place. */
    method AddDetails(detail: string)
      modifies this
      ensures details == old(details) + [detail]
      ensures |details| == |old(details)| + 1 && details[..|old(details)|] == old(details)
      ensures !IsDetailsEmpty()
    {
      details := details + [detail];
    }

    /** No detail has been added since construction. */
    predicate IsDetailsEmpty()
      reads this
      ensures IsDetailsEmpty() <==> details == []
    {
      |details| == 0
    }
  }
}
