/** The header handling of FlintXmlHttpRequestAPI.cpp. The request and response buffers are strings;
    the sockets behind them are not part of this model. */
module XmlHttpRequests {
  import opened HeaderText
  import opened Sequences

  class XmlHttpRequest {
    var requestHeaders: Headers
    var responseHeaders: Headers

    constructor ()
      ensures requestHeaders == map[] && responseHeaders == map[]
    {
      requestHeaders, responseHeaders := map[], map[];
    }

    /** The first value set for a name stays. */
    method SetRequestHeader(name: string, value: string)
      modifies `requestHeaders
      ensures name in old(requestHeaders) ==> requestHeaders == old(requestHeaders)
      ensures name !in old(requestHeaders) ==> requestHeaders == old(requestHeaders)[name := value]
    {
      if name !in requestHeaders {
        requestHeaders := requestHeaders[name := value];
      }
    }

    /** Writes the custom headers, one line each, in the order in which the map is walked. */
    method WriteHeaders() returns (text: string, ghost order: seq<string>)
      ensures Enumerates(order, requestHeaders) && Ascending(order)
      ensures text == Print(requestHeaders, order)
      ensures forall i :: 0 <= i < |order| ==>
                text == Print(requestHeaders, order[..i]) +
                        (order[i] + ": " + requestHeaders[order[i]] + "\r\n") + Print(requestHeaders, order[i + 1..])
    {
      text, order := "", [];
      var left := requestHeaders.Keys;
      while left != {}
        invariant Walked(requestHeaders, order, left) && text == Print(requestHeaders, order)
        decreases |left|
      {
        var key := NextKey(left);
        WalkNext(requestHeaders, order, left, key);
        PrintNext(requestHeaders, order, key);
        text := text + (key + ": " + requestHeaders[key] + "\r\n");
        left, order := left - {key}, order + [key];
      }
      WalkEnds(requestHeaders, order);
      forall i | 0 <= i < |order|
        ensures text == Print(requestHeaders, order[..i]) +
                        (order[i] + ": " + requestHeaders[order[i]] + "\r\n") + Print(requestHeaders, order[i + 1..])
      {
        PrintLine(requestHeaders, order, i);
      }
    }

    /** Where the iterator goes next. */
    method NextKey(left: set<string>) returns (key: string)
      requires left != {}
      ensures IsLeast(key, left)
    {
      ghost var least := LeastExists(left);
      key :| IsLeast(key, left);
    }

    /** Reads header lines up to the blank one; what follows stays in the buffer. A name that is there
        keeps its value. */
    method ReadHeaders(stream: string) returns (rest: string)
      requires WellFormed(stream)
      modifies `responseHeaders
      ensures (responseHeaders, rest) == Parse(stream, old(responseHeaders))
      ensures forall k :: k in old(responseHeaders) ==>
                k in responseHeaders && responseHeaders[k] == old(responseHeaders)[k]
    {
      ParseKeepsAll(stream, responseHeaders);
      rest := ReadLines(stream);
    }

    /** The parse loop. */
    method ReadLines(stream: string) returns (rest: string)
      requires WellFormed(stream)
      modifies `responseHeaders
      ensures (responseHeaders, rest) == Parse(stream, old(responseHeaders))
    {
      rest := stream;
      while rest != ""
        invariant WellFormed(rest)
        invariant Parse(rest, responseHeaders) == Parse(stream, old(responseHeaders))
        decreases |rest|
      {
        var header := Line(rest);
        if header == "\r" {
          rest := AfterLine(rest);
          return;
        }
        header := header[..IndexOf(header, '\r')];
        var cursor := Separator(header);
        var key, value := header[..cursor], header[cursor + 2..];
        rest := AfterLine(rest);
        if key !in responseHeaders {
          responseHeaders := responseHeaders[key := value];
        }
      }
    }
  }

  lemma PrintFirst(m: Headers, k: string, ks: seq<string>)
    requires k in m && forall l :: l in ks ==> l in m
    ensures Print(m, [k] + ks) == HeaderLine(k, m[k]) + Print(m, ks)
  {
    assert ([k] + ks)[1..] == ks;
  }

  lemma Regroup(a: string, b: string, c: string)
    ensures a + (b + c) == (a + b) + c
  {
  }

  lemma {:induction false} PrintJoin(m: Headers, front: seq<string>, back: seq<string>)
    requires forall k :: k in front || k in back ==> k in m
    ensures Print(m, front + back) == Print(m, front) + Print(m, back)
  {
    if front == [] {
      assert front + back == back;
    } else {
      var k, rest := front[0], front[1..];
      PrintJoin(m, rest, back);
      PrintFirst(m, k, rest);
      PrintFirst(m, k, rest + back);
      Regroup(HeaderLine(k, m[k]), Print(m, rest), Print(m, back));
      assert front == [k] + rest && front + back == [k] + (rest + back);
    }
  }

  /** Line i of what is printed. */
  lemma {:induction false} PrintLine(m: Headers, order: seq<string>, i: nat)
    requires i < |order| && forall k :: k in order ==> k in m
    ensures Print(m, order) ==
            Print(m, order[..i]) + (order[i] + ": " + m[order[i]] + "\r\n") + Print(m, order[i + 1..])
  {
    assert order == order[..i] + order[i..] && order[i..][1..] == order[i + 1..];
    PrintJoin(m, order[..i], order[i..]);
  }

  lemma {:induction false} PrintNext(m: Headers, order: seq<string>, key: string)
    requires key in m && forall k :: k in order ==> k in m
    ensures Print(m, order + [key]) == Print(m, order) + HeaderLine(key, m[key])
  {
    if order == [] {
      assert order + [key] == [key];
    } else {
      PrintNext(m, order[1..], key);
      assert (order + [key])[1..] == order[1..] + [key];
    }
  }
}
