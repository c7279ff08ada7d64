/** The small pieces of JavaScript and Fetch semantics every handler shares. */
module Http {
  import opened Wrappers

  /** A string binding is truthy when set and non-empty. */
  predicate Truthy(v: Option<string>)
  {
    v.Some? && v.value != ""
  }

  /** `res.ok` of the Fetch standard: a status in the range 200 to 299. */
  predicate IsOk(status: int)
  {
    200 <= status <= 299
  }

  /** A `Set-Cookie` header for each line, in order. */
  function SetCookieHeaders(lines: seq<string>): (hs: seq<(string, string)>)
    ensures |hs| == |lines|
    ensures forall i :: 0 <= i < |hs| ==> hs[i] == ("Set-Cookie", lines[i])
  {
    seq(|lines|, i requires 0 <= i < |lines| => ("Set-Cookie", lines[i]))
  }

  /**
   * Headers for two runs of lines are the headers of the first run followed
   * by those of the second: appending cookie lines in batches gives the same
   * header list as appending them all at once.
   */
  lemma SetCookieHeadersAppend(a: seq<string>, b: seq<string>)
    ensures SetCookieHeaders(a + b) == SetCookieHeaders(a) + SetCookieHeaders(b)
  {
    var l := SetCookieHeaders(a + b);
    var r := SetCookieHeaders(a) + SetCookieHeaders(b);
    assert |l| == |r|;
    forall i | 0 <= i < |l| ensures l[i] == r[i] {
      if i < |a| {
        assert (a + b)[i] == a[i];
      } else {
        assert (a + b)[i] == b[i - |a|];
      }
    }
  }

  /**
   * A response. Its header list is mutable when the handler built it with
   * `new Response(...)`; `Response.redirect` gives one whose headers are
   * immutable (the Fetch standard's "immutable" header guard).
   */
  class Response {
    const status: int
    const body: string
    const immutable: bool
    var headers: seq<(string, string)>

    /** `new Response(body, { status, headers })`. */
    constructor(body: string, status: int, headers: seq<(string, string)>)
      ensures this.status == status && this.body == body && this.headers == headers
      ensures !immutable
    {
      this.status := status;
      this.body := body;
      this.headers := headers;
      immutable := false;
    }

    /** `Response.redirect(url, status)`: an empty body, the `Location` header, and immutable headers. */
    constructor Redirect(url: string, status: int)
      ensures this.status == status && this.body == "" && this.headers == [("Location", url)]
      ensures immutable
    {
      this.status := status;
      body := "";
      headers := [("Location", url)];
      immutable := true;
    }

    /**
     * `headers.append(name, value)`: the new header goes after all others.
     * On immutable headers it throws a `TypeError` instead; `ok` is false
     * then and the headers are as they were.
     */
    method Append(name: string, value: string) returns (ok: bool)
      modifies this
      ensures ok <==> !immutable
      ensures ok ==> headers == old(headers) + [(name, value)]
      ensures !ok ==> headers == old(headers)
    {
      if immutable {
        return false;
      }
      headers := headers + [(name, value)];
      return true;
    }
  }

  /**
   * `for (const c of lines) res.headers.append("Set-Cookie", c)`. It
   * completes exactly when there is nothing to append or the headers are
   * mutable; otherwise the first `append` throws and nothing is appended.
   */
  method AppendSetCookies(res: Response, lines: seq<string>) returns (ok: bool)
    modifies res
    ensures ok <==> lines == [] || !res.immutable
    ensures ok ==> res.headers == old(res.headers) + SetCookieHeaders(lines)
    ensures !ok ==> res.headers == old(res.headers)
  {
    for i := 0 to |lines|
      invariant res.headers == old(res.headers) + SetCookieHeaders(lines[..i])
      invariant i > 0 ==> !res.immutable
    {
      SetCookieHeadersAppend(lines[..i], [lines[i]]);
      assert lines[..i + 1] == lines[..i] + [lines[i]];
      var appended := res.Append("Set-Cookie", lines[i]);
      if !appended {
        return false;
      }
    }
    assert lines[..|lines|] == lines;
    return true;
  }
}
