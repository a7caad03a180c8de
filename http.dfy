/** The part of a Flask response object that the request hooks and the
    CSRF-aware rendering touch: status, headers and the Cache-Control fields. */
module Http {
  import opened Common

  class Response {
    var statusCode: int
    var headers: map<string, string>
    var cachePrivate: bool
    var maxAge: Option<int>

    /** A response with the given status, no headers and an empty Cache-Control. */
    constructor (statusCode: int)
      ensures this.statusCode == statusCode && headers == map[] && !cachePrivate && maxAge == None
    {
      this.statusCode := statusCode;
      headers := map[];
      cachePrivate := false;
      maxAge := None;
    }
  }
}
