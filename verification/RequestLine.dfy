/** parse_request_line (framework/src/kfw_web.cpp): method, url and version of an HTTP request. */
module RequestLine {
  import opened Text

  datatype Parts = Parts(verb: string, url: string, version: string) | NoSpace

  /** parse_request_line (framework/src/kfw_web.cpp). */
  function Parse(s: string): Parts {
    var p0 := IndexOf(s, ' ', 0);
    if p0 < 0 then NoSpace
    else
      var p1 := IndexOf(s, ' ', p0 + 1);
      if p1 >= 0 then Parts(s[..p0], s[p0 + 1..p1], s[p1 + 1..])
      else Parts(s[..p0], s[p0 + 1..], "")
  }

  function Print(verb: string, url: string, version: string): string {
    verb + " " + url + " " + version
  }

  /** Parsing undoes printing iff neither method nor url contains a space. */
  lemma ParsePrintedIff(m: string, u: string, v: string)
    ensures Parse(Print(m, u, v)) == Parts(m, u, v) <==> ' ' !in m && ' ' !in u
  {
    hide IndexOf;
    var s := Print(m, u, v);
    if ' ' !in m && ' ' !in u {
      assert s[0..|m|] == m;
      IndexOfIs(s, ' ', 0, |m|);
      var p1 := |m| + 1 + |u|;
      assert s[|m| + 1..p1] == u;
      IndexOfIs(s, ' ', |m| + 1, p1);
      assert s[p1 + 1..] == v;
    } else if Parse(s) == Parts(m, u, v) {
      ParseRejoins(s);
    }
  }

  /** A parse succeeds iff there is a space, and its parts joined by spaces are the input again. */
  lemma ParseRejoins(s: string)
    ensures Parse(s).NoSpace? <==> ' ' !in s
    ensures var r := Parse(s);
            r.Parts? ==>
              && ' ' !in r.verb && ' ' !in r.url
              && (s == Print(r.verb, r.url, r.version)
                  || (s == r.verb + " " + r.url && r.version == ""))
  {
    hide IndexOf;
    hide Print;
    var p0 := IndexOf(s, ' ', 0);
    assert s[0..] == s;
    if p0 >= 0 {
      assert s[0..p0] == s[..p0];
      var p1 := IndexOf(s, ' ', p0 + 1);
      if p1 >= 0 { SplitTwice(s, p0, p1); } else { SplitAround(s, p0); }
    }
  }

  lemma SplitAround(s: string, p: nat)
    requires p < |s| && s[p] == ' '
    ensures s == s[..p] + " " + s[p + 1..]
  {
  }

  lemma SplitTwice(s: string, p: nat, q: nat)
    requires p < q < |s| && s[p] == ' ' && s[q] == ' '
    ensures s == Print(s[..p], s[p + 1..q], s[q + 1..])
  {
  }
}
