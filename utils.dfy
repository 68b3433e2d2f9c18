/** The status-code acceptance rule every remote call goes through. */
module Utils {
  import opened Results

  const StatusOK := 200
  const StatusBadRequest := 400
  const StatusNotFound := 404
  const StatusConflict := 409
  const StatusInternalServerError := 500

  /** The early-return scan over the exception codes. */
  function ScanExceptions(statusCode: int, exceptCode: seq<int>): (found: bool)
    ensures found <==> statusCode in exceptCode
  {
    if exceptCode == [] then false
    else if exceptCode[0] == statusCode then true
    else ScanExceptions(statusCode, exceptCode[1..])
  }

  /** A response is a success when its status is 2xx or one of the listed exceptions. */
  function IsSuccessResponse(statusCode: int, exceptCode: seq<int>): (ok: bool)
    ensures 200 <= statusCode < 300 ==> ok
    ensures !(200 <= statusCode < 300) ==> (ok <==> statusCode in exceptCode)
  {
    if 200 <= statusCode && statusCode < 300 then true
    else ScanExceptions(statusCode, exceptCode)
  }

  /** With no exception codes, success is exactly the 2xx range. */
  lemma NoExceptionsMeans2xx(statusCode: int)
    ensures IsSuccessResponse(statusCode, []) <==> 200 <= statusCode < 300
  {
  }

  /** Listing more exception codes never turns a success into a failure. */
  lemma ExceptionsAreMonotonic(statusCode: int, exceptCode: seq<int>, more: seq<int>)
    requires IsSuccessResponse(statusCode, exceptCode)
    ensures IsSuccessResponse(statusCode, exceptCode + more)
    ensures IsSuccessResponse(statusCode, more + exceptCode)
  {
  }

  /** How a client call reports a response: nothing when accepted, else the status it got. */
  function Accepted(statusCode: int, exceptCode: seq<int>): (r: Outcome)
    ensures r.Ok? <==> 200 <= statusCode < 300 || statusCode in exceptCode
    ensures r.Err? ==> r.error == Rejected(statusCode)
  {
    if IsSuccessResponse(statusCode, exceptCode) then Ok(()) else Err(Rejected(statusCode))
  }
}
