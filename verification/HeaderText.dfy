/** Header lines as FlintXmlHttpRequestAPI.cpp writes them into a request and reads them from a
    response. */
module HeaderText {
  import opened Sequences

  type Headers = map<string, string>

  // ---------------------------------------------------------------- reading

  predicate SeparatorAt(s: string, i: nat) {
    i + 1 < |s| && s[i] == ':' && s[i + 1] == ' '
  }

  /** std::search for ": ": its first position, or the length. */
  function Separator(s: string): (i: nat)
    ensures i <= |s| && (i < |s| ==> SeparatorAt(s, i))
    ensures forall j :: 0 <= j < i ==> !SeparatorAt(s, j)
  {
    if s == "" || SeparatorAt(s, 0) then 0
    else
      var i := Separator(s[1..]);
      assert forall j :: 1 <= j < |s| ==> (SeparatorAt(s, j) <==> SeparatorAt(s[1..], j - 1));
      1 + i
  }

  /** std::getline: the characters before the first line feed, and what follows it. */
  function Line(s: string): string {
    s[..IndexOf(s, '\n')]
  }

  function AfterLine(s: string): (rest: string)
    ensures s != "" ==> |rest| < |s|
  {
    var i := IndexOf(s, '\n');
    if i < |s| then s[i + 1..] else ""
  }

  /** The line without the carriage return and anything behind it. */
  function Cut(line: string): string {
    line[..IndexOf(line, '\r')]
  }

  /** Every line up to the blank one has a separator, which is what the parser relies on. */
  predicate WellFormed(s: string)
    decreases |s|
  {
    s == "" || Line(s) == "\r" || (Separator(Cut(Line(s))) < |Cut(Line(s))| && WellFormed(AfterLine(s)))
  }

  /** map::insert keeps what is there. */
  function InsertNew(m: Headers, key: string, value: string): Headers {
    if key in m then m else m[key := value]
  }

  function KeyOf(line: string): string {
    var h := Cut(line);
    h[..Separator(h)]
  }

  function ValueOf(line: string): string
    requires Separator(Cut(line)) < |Cut(line)|
  {
    var h := Cut(line);
    h[Separator(h) + 2..]
  }

  /** The headers read into m up to the blank line, and what is left of the input. */
  function Parse(s: string, m: Headers): (Headers, string)
    requires WellFormed(s)
    decreases |s|
  {
    if s == "" then (m, "")
    else if Line(s) == "\r" then (m, AfterLine(s))
    else Parse(AfterLine(s), InsertNew(m, KeyOf(Line(s)), ValueOf(Line(s))))
  }

  /** A name that is there keeps its value, whatever lines follow. */
  lemma {:induction false} ParseKeeps(s: string, m: Headers, k: string)
    requires WellFormed(s) && k in m
    ensures k in Parse(s, m).0 && Parse(s, m).0[k] == m[k]
    decreases |s|
  {
    if s != "" && Line(s) != "\r" {
      ParseKeeps(AfterLine(s), InsertNew(m, KeyOf(Line(s)), ValueOf(Line(s))), k);
    }
  }

  lemma ParseKeepsAll(s: string, m: Headers)
    requires WellFormed(s)
    ensures forall k :: k in m ==> k in Parse(s, m).0 && Parse(s, m).0[k] == m[k]
  {
    forall k | k in m ensures k in Parse(s, m).0 && Parse(s, m).0[k] == m[k] {
      ParseKeeps(s, m, k);
    }
  }

  /** A name that is not there gets the value of the first line with that name. */
  lemma {:induction false} ParseTakesFirst(s: string, m: Headers)
    requires WellFormed(s) && s != "" && Line(s) != "\r" && KeyOf(Line(s)) !in m
    ensures KeyOf(Line(s)) in Parse(s, m).0 && Parse(s, m).0[KeyOf(Line(s))] == ValueOf(Line(s))
  {
    ParseKeeps(AfterLine(s), InsertNew(m, KeyOf(Line(s)), ValueOf(Line(s))), KeyOf(Line(s)));
  }

  // ---------------------------------------------------------------- writing

  function HeaderLine(key: string, value: string): string {
    key + ": " + value + "\r\n"
  }

  function Print(m: Headers, order: seq<string>): string
    requires forall k :: k in order ==> k in m
  {
    if order == [] then "" else HeaderLine(order[0], m[order[0]]) + Print(m, order[1..])
  }

  /** The order of the keys of a std::map: that of strings. */
  predicate Before(a: string, b: string) {
    b != "" && (a == "" || a[0] < b[0] || (a[0] == b[0] && Before(a[1..], b[1..])))
  }

  lemma {:induction false} BeforeTotal(a: string, b: string)
    ensures a == b || Before(a, b) || Before(b, a)
  {
    if a != "" && b != "" && a[0] == b[0] {
      BeforeTotal(a[1..], b[1..]);
      assert a == [a[0]] + a[1..] && b == [b[0]] + b[1..];
    }
  }

  lemma {:induction false} BeforeTransitive(a: string, b: string, c: string)
    requires Before(a, b) && Before(b, c)
    ensures Before(a, c)
  {
    if a != "" && a[0] == b[0] == c[0] {
      BeforeTransitive(a[1..], b[1..], c[1..]);
    }
  }

  predicate IsLeast(k: string, keys: set<string>) {
    k in keys && forall l :: l in keys ==> l == k || Before(k, l)
  }

  lemma {:induction false} LeastExists(keys: set<string>) returns (least: string)
    requires keys != {}
    ensures IsLeast(least, keys)
  {
    var k :| k in keys;
    var rest := keys - {k};
    if rest == {} {
      assert keys == {k};
      return k;
    }
    least := LeastExists(rest);
    BeforeTotal(least, k);
    if !Before(least, k) {
      forall l | l in rest ensures Before(k, l) {
        if l != least {
          BeforeTransitive(k, least, l);
        }
      }
      least := k;
    }
  }

  ghost predicate Ascending(order: seq<string>) {
    forall i, j :: 0 <= i < j < |order| ==> Before(order[i], order[j])
  }

  lemma {:induction false} BeforeIsStrict(a: string)
    ensures !Before(a, a)
  {
    if a != "" {
      BeforeIsStrict(a[1..]);
    }
  }

  /** The keys of the map, each once. */
  ghost predicate Enumerates(order: seq<string>, m: Headers) {
    && (forall k :: k in m <==> k in order)
    && DistinctSeq(order)
  }

  // ---------------------------------------------------------------- round trip

  predicate NoLineBreak(s: string) {
    '\r' !in s && '\n' !in s
  }

  ghost predicate Clean(m: Headers) {
    forall k :: k in m ==> NoLineBreak(k) && NoLineBreak(m[k]) && forall i: nat :: !SeparatorAt(k, i)
  }

  /** A walk over the map in ascending order that has come so far, with these keys left. */
  ghost predicate Walked(m: Headers, order: seq<string>, left: set<string>) {
    && Ascending(order) && left <= m.Keys
    && (forall k :: k in order <==> k in m && k !in left)
    && (forall i, l :: 0 <= i < |order| && l in left ==> Before(order[i], l))
  }

  lemma WalkNext(m: Headers, order: seq<string>, left: set<string>, key: string)
    requires Walked(m, order, left) && IsLeast(key, left)
    ensures Walked(m, order + [key], left - {key})
  {
  }

  lemma WalkEnds(m: Headers, order: seq<string>)
    requires Walked(m, order, {})
    ensures Enumerates(order, m) && Ascending(order)
  {
    forall i, j | 0 <= i < j < |order| ensures order[i] != order[j] {
      BeforeIsStrict(order[i]);
    }
  }

  lemma IndexOfIs(s: string, c: char, i: nat)
    requires i < |s| && s[i] == c && forall j :: 0 <= j < i ==> s[j] != c
    ensures IndexOf(s, c) == i
  {
  }

  /** A printed header line is read back as the key and the value it was made from, also when the
      key ends in a colon or the value contains separators. */
  lemma {:induction false} LineRoundTrip(key: string, value: string, rest: string)
    requires NoLineBreak(key) && NoLineBreak(value) && forall i: nat :: !SeparatorAt(key, i)
    ensures var s := HeaderLine(key, value) + rest;
            && AfterLine(s) == rest && Line(s) != "\r" && Separator(Cut(Line(s))) < |Cut(Line(s))|
            && KeyOf(Line(s)) == key && ValueOf(Line(s)) == value
  {
    var h := key + ": " + value;
    var s := HeaderLine(key, value) + rest;
    assert s == h + "\r\n" + rest;
    IndexOfIs(s, '\n', |h| + 1);
    assert Line(s) == h + "\r";
    IndexOfIs(h + "\r", '\r', |h|);
    assert Cut(Line(s)) == h;
    assert SeparatorAt(h, |key|);
    forall j: nat | j < |key| ensures !SeparatorAt(h, j) {
      assert !SeparatorAt(key, j);
      if j + 1 < |key| {
        assert h[j] == key[j] && h[j + 1] == key[j + 1];
      } else {
        assert h[j + 1] == ':';
      }
    }
    assert Separator(h) == |key|;
    assert h[|key| + 2..] == value;
  }

  /** The entries of m under the given keys added to done. */
  ghost function Collect(m: Headers, order: seq<string>, done: Headers): Headers
    requires forall k :: k in order ==> k in m
  {
    if order == [] then done else Collect(m, order[1..], done[order[0] := m[order[0]]])
  }

  lemma {:induction false} CollectKeys(m: Headers, order: seq<string>, done: Headers)
    requires forall k :: k in order ==> k in m
    ensures forall k :: k in Collect(m, order, done) <==> k in order || k in done
    ensures forall k :: k in order ==> Collect(m, order, done)[k] == m[k]
    ensures forall k :: k in done && k !in order ==> Collect(m, order, done)[k] == done[k]
  {
    if order != [] {
      CollectKeys(m, order[1..], done[order[0] := m[order[0]]]);
    }
  }

  lemma {:induction false} PrintedParses(m: Headers, order: seq<string>, done: Headers, tail: string)
    requires Clean(m) && forall k :: k in order ==> k in m && k !in done
    requires DistinctSeq(order)
    requires WellFormed(tail)
    ensures WellFormed(Print(m, order) + tail)
    ensures Parse(Print(m, order) + tail, done) == Parse(tail, Collect(m, order, done))
  {
    if order == [] {
      assert Print(m, order) + tail == tail;
    } else {
      var k, rest := order[0], Print(m, order[1..]) + tail;
      assert Print(m, order) + tail == HeaderLine(k, m[k]) + rest;
      LineRoundTrip(k, m[k], rest);
      PrintedParses(m, order[1..], done[k := m[k]], tail);
    }
  }

  lemma {:induction false} ParsedClean(s: string, m: Headers)
    requires WellFormed(s) && Clean(m)
    ensures Clean(Parse(s, m).0)
    decreases |s|
  {
    if s != "" && Line(s) != "\r" {
      var h := Cut(Line(s));
      assert NoLineBreak(h);
      var key, value := KeyOf(Line(s)), ValueOf(Line(s));
      assert forall i: nat :: SeparatorAt(key, i) ==> SeparatorAt(h, i);
      assert forall i: nat | i < Separator(h) :: !SeparatorAt(h, i);
      ParsedClean(AfterLine(s), InsertNew(m, key, value));
    }
  }

  lemma BlankLine(body: string)
    ensures var tail := "\r\n" + body; Line(tail) == "\r" && AfterLine(tail) == body
  {
    IndexOfIs("\r\n" + body, '\n', 1);
  }

  lemma CollectsAll(m: Headers, order: seq<string>)
    requires Enumerates(order, m)
    ensures Collect(m, order, map[]) == m
  {
    CollectKeys(m, order, map[]);
  }

  lemma CleanRoundTrip(m: Headers, order: seq<string>, tail: string, body: string)
    requires Enumerates(order, m) && Clean(m)
    requires tail != "" && Line(tail) == "\r" && AfterLine(tail) == body
    ensures WellFormed(Print(m, order) + tail) && Parse(Print(m, order) + tail, map[]) == (m, body)
  {
    PrintedParses(m, order, map[], tail);
    CollectsAll(m, order);
  }

  /** The header round trip: what was printed, in any order, followed by a blank line and a body, is
      read back as the same map with the body left over, exactly when no key contains a separator
      and neither keys nor values contain line breaks. */
  lemma {:induction false} HeaderRoundTrip(m: Headers, order: seq<string>, body: string)
    requires Enumerates(order, m)
    ensures var text := Print(m, order) + ("\r\n" + body);
            Clean(m) <==> WellFormed(text) && Parse(text, map[]) == (m, body)
  {
    BlankLine(body);
    if Clean(m) {
      CleanRoundTrip(m, order, "\r\n" + body, body);
    } else if WellFormed(Print(m, order) + ("\r\n" + body)) {
      ParsedClean(Print(m, order) + ("\r\n" + body), map[]);
    }
  }
}
