/**
 * MinesweeperPlayer.java, the robot server: how a request's query string
 * becomes a parameter map, how the response code travels through the
 * response headers, and how the mouse-move handler reads its target.
 * The AWT robot, the screen and the HTTP server itself are not modelled.
 */
module Player {
  import opened Wrappers
  import opened Text
  import opened Decimal

  /** The exceptions RequestHandler.handle catches and prints instead of responding. */
  datatype HandlerError =
    | IllegalState(duplicateKey: string)  // toUnmodifiableMap on a repeated key
    | NumberFormat(input: string)         // Integer.parseInt on bad text
    | IndexOutOfBounds                    // vals.get(0) on an empty header list

  // ----- the query string -----

  /** kv.split("=") kept only when it has exactly two parts. */
  function Segment(kv: string): (r: Option<(string, string)>)
    ensures r.Some? ==> '=' in kv && '=' !in r.value.0 && '=' !in r.value.1
  {
    var parts := JavaSplit(kv, '=');
    if |parts| == 2 then
      SplitPieces(kv, '=');
      Some((parts[0], parts[1]))
    else None
  }

  /** No piece of a split contains the separator. */
  lemma {:induction false} SplitPieces(s: string, sep: char)
    ensures forall i :: 0 <= i < |Split(s, sep)| ==> sep !in Split(s, sep)[i]
    ensures forall i :: 0 <= i < |JavaSplit(s, sep)| ==> sep !in s || sep !in JavaSplit(s, sep)[i]
  {
    if s != [] {
      SplitPieces(s[1..], sep);
      var rest := Split(s[1..], sep);
      if s[0] != sep {
        assert forall i :: 1 <= i < |Split(s, sep)| ==> Split(s, sep)[i] == rest[i];
      } else {
        assert forall i :: 1 <= i < |Split(s, sep)| ==> Split(s, sep)[i] == rest[i - 1];
      }
    }
  }

  /** The pairs the stream keeps, in order. */
  function QueryPairs(segments: seq<string>): (r: seq<(string, string)>)
    ensures |r| <= |segments|
  {
    ConcatMapShort(segments, Kept);
    ConcatMap(segments, Kept)
  }

  /** What one segment contributes: its pair, or nothing. */
  function Kept(segment: string): (r: seq<(string, string)>)
    ensures |r| <= 1
  {
    var s := Segment(segment);
    if s.Some? then [s.value] else []
  }

  /** A stream's flatMap: what each element contributes, concatenated in order. */
  function ConcatMap<A, B>(xs: seq<A>, f: A -> seq<B>): seq<B>
  {
    if xs == [] then [] else ConcatMap(xs[..|xs| - 1], f) + f(xs[|xs| - 1])
  }

  /** The contributions of two runs are those of each. */
  lemma {:induction false} ConcatMapAppend<A, B>(a: seq<A>, b: seq<A>, f: A -> seq<B>)
    ensures ConcatMap(a + b, f) == ConcatMap(a, f) + ConcatMap(b, f)
  {
    if b == [] {
      assert a + b == a;
    } else {
      var b' := b[..|b| - 1];
      ConcatMapAppend(a, b', f);
      assert (a + b)[..|a + b| - 1] == a + b';
      assert (a + b)[|a + b| - 1] == b[|b| - 1];
    }
  }

  /** When each element contributes at most one item, there are at most as many items as elements. */
  lemma {:induction false} ConcatMapShort<A, B>(xs: seq<A>, f: A -> seq<B>)
    requires forall x :: |f(x)| <= 1
    ensures |ConcatMap(xs, f)| <= |xs|
  {
    if xs != [] {
      ConcatMapShort(xs[..|xs| - 1], f);
    }
  }

  /** The keys of the pairs, in order. */
  function Keys(pairs: seq<(string, string)>): set<string>
  {
    set i | 0 <= i < |pairs| :: pairs[i].0
  }

  /** No key occurs twice. */
  predicate DistinctKeys(pairs: seq<(string, string)>)
  {
    forall i, j :: 0 <= i < j < |pairs| ==> pairs[i].0 != pairs[j].0
  }

  /**
   * collect(toUnmodifiableMap(kv[0], kv[1])): pairs are added in stream
   * order, and the first key seen twice throws IllegalStateException.
   */
  function ToMap(pairs: seq<(string, string)>): (r: Result<map<string, string>, HandlerError>)
    ensures r.Err? ==> r.error.IllegalState?
  {
    if pairs == [] then Ok(map[])
    else
      var front := ToMap(pairs[..|pairs| - 1]);
      var (k, v) := pairs[|pairs| - 1];
      if front.Err? then front
      else if k in front.value then Err(IllegalState(k))
      else Ok(front.value[k := v])
  }

  /** The map is built exactly when no key repeats, and then it holds every pair. */
  lemma {:induction false} ToMapSpec(pairs: seq<(string, string)>)
    ensures ToMap(pairs).Ok? <==> DistinctKeys(pairs)
    ensures ToMap(pairs).Ok? ==> (ToMap(pairs).value.Keys == Keys(pairs) &&
      forall i :: 0 <= i < |pairs| ==> ToMap(pairs).value[pairs[i].0] == pairs[i].1)
  {
    if pairs != [] {
      var front := pairs[..|pairs| - 1];
      var (k, v) := pairs[|pairs| - 1];
      ToMapSpec(front);
      assert forall i :: 0 <= i < |front| ==> front[i] == pairs[i];
      if ToMap(front).Ok? && k in ToMap(front).value {
        var i :| 0 <= i < |front| && front[i].0 == k;
        assert pairs[i].0 == pairs[|pairs| - 1].0;
      }
      if DistinctKeys(pairs) {
        assert DistinctKeys(front);
        assert Keys(pairs) == Keys(front) + {k};
      }
    }
  }

  /**
   * The parameter map of handle: a missing query is "", it is split on '&',
   * each segment on '=', and the two-part segments are collected.
   */
  function ParseQuery(query: Option<string>): (r: Result<map<string, string>, HandlerError>)
    ensures query == None || query == Some("") ==> r == Ok(map[])
  {
    var q := if query.Some? then query.value else "";
    ToMap(QueryPairs(JavaSplit(q, '&')))
  }

  /** What a segment contributes, case by case. */
  lemma SegmentCases()
    ensures Segment("a=b") == Some(("a", "b"))
    ensures Segment("a=") == None
    ensures Segment("=b") == Some(("", "b"))
    ensures Segment("a") == None
    ensures Segment("a=b=c") == None
    ensures Segment("") == None
  {
    SplitAround("a", "b");
    SplitAround("a", "");
    SplitAround("", "b");
    assert Join(["a", "b", "c"], '=') == "a=b=c";
    SplitJoin(["a", "b", "c"], '=');
  }

  /** k=v with no '=' in k or v splits into k and v. */
  lemma SplitAround(k: string, v: string)
    requires '=' !in k && '=' !in v
    ensures Split(k + "=" + v, '=') == [k, v]
    ensures '=' in k + "=" + v
  {
    assert Join([k, v], '=') == k + "=" + v;
    SplitJoin([k, v], '=');
    assert (k + "=" + v)[|k|] == '=';
  }

  /** An empty segment, as between "&&", contributes nothing. */
  lemma EmptySegmentIgnored(a: seq<string>, b: seq<string>)
    ensures QueryPairs(a + [""] + b) == QueryPairs(a + b)
  {
    QueryPairsAppend(a + [""], b);
    QueryPairsAppend(a, b);
    QueryPairsAppend(a, [""]);
    assert Segment("") == None by { SegmentCases(); }
    assert QueryPairs([""]) == [];
  }

  /** The pairs of two runs of segments are the pairs of each. */
  lemma QueryPairsAppend(a: seq<string>, b: seq<string>)
    ensures QueryPairs(a + b) == QueryPairs(a) + QueryPairs(b)
  {
    ConcatMapAppend(a, b, Kept);
  }

  /** Text that needs no escaping in a query: no '=' and no '&'. */
  predicate Plain(text: string)
  {
    '=' !in text && '&' !in text
  }

  /** The segment k + "=" + v. */
  function Assignment(p: (string, string)): string
  {
    p.0 + "=" + p.1
  }

  /** The query string of a parameter list, as an HTTP client writes it. */
  function Encode(pairs: seq<(string, string)>): string
  {
    Join(Assignments(pairs), '&')
  }

  /** A plain key and a plain non-empty value make a segment that parses back to the pair. */
  lemma SegmentOfAssignment(p: (string, string))
    requires Plain(p.0) && Plain(p.1) && p.1 != ""
    ensures Segment(Assignment(p)) == Some(p)
  {
    SplitAround(p.0, p.1);
    assert DropTrailingEmpty([p.0, p.1]) == [p.0, p.1];
  }

  /**
   * Encoding a list of parameters with plain keys, plain non-empty values
   * and no repeated key, then parsing the query, gives back each value
   * under its key.
   */
  lemma ParseEncoded(pairs: seq<(string, string)>)
    requires forall i :: 0 <= i < |pairs| ==> Plain(pairs[i].0) && Plain(pairs[i].1) && pairs[i].1 != ""
    requires DistinctKeys(pairs)
    ensures ParseQuery(Some(Encode(pairs))).Ok?
    ensures ParseQuery(Some(Encode(pairs))).value.Keys == Keys(pairs)
    ensures forall i :: 0 <= i < |pairs| ==> ParseQuery(Some(Encode(pairs))).value[pairs[i].0] == pairs[i].1
  {
    var segs := Assignments(pairs);
    if pairs != [] {
      SplitEncoded(pairs);
      SegmentsParse(pairs, segs);
    } else {
      assert Keys(pairs) == {};
    }
    ToMapSpec(pairs);
  }

  function Assignments(pairs: seq<(string, string)>): (segs: seq<string>)
    ensures |segs| == |pairs| && forall i :: 0 <= i < |pairs| ==> segs[i] == Assignment(pairs[i])
  {
    seq(|pairs|, i requires 0 <= i < |pairs| => Assignment(pairs[i]))
  }

  /** The query of plain pairs splits on '&' into their assignments. */
  lemma SplitEncoded(pairs: seq<(string, string)>)
    requires |pairs| >= 1
    requires forall i :: 0 <= i < |pairs| ==> Plain(pairs[i].0) && Plain(pairs[i].1) && pairs[i].1 != ""
    ensures JavaSplit(Encode(pairs), '&') == Assignments(pairs)
  {
    var segs := Assignments(pairs);
    assert Encode(pairs) == Join(segs, '&');
    if |pairs| == 1 {
      assert Join(segs, '&') == segs[0];
      assert '&' !in segs[0] by { SplitAround(pairs[0].0, pairs[0].1); }
    } else {
      forall i | 0 <= i < |segs| ensures '&' !in segs[i] {
        assert segs[i] == pairs[i].0 + "=" + pairs[i].1;
      }
      SplitJoin(segs, '&');
      JoinHasSeparator(segs, '&');
      var last := pairs[|pairs| - 1];
      assert segs[|segs| - 1] == last.0 + "=" + last.1;
      assert segs[|segs| - 1][|last.0|] == '=';
      assert segs[|segs| - 1] != "";
      assert DropTrailingEmpty(segs) == segs;
      var j := Join(segs, '&');
      assert '&' in j;
      assert Split(j, '&') == segs;
      assert JavaSplit(j, '&') == DropTrailingEmpty(Split(j, '&'));
    }
  }

  /** Each assignment segment yields its pair. */
  lemma {:induction false} SegmentsParse(pairs: seq<(string, string)>, segs: seq<string>)
    requires forall i :: 0 <= i < |pairs| ==> Plain(pairs[i].0) && Plain(pairs[i].1) && pairs[i].1 != ""
    requires |segs| == |pairs| && forall i :: 0 <= i < |pairs| ==> segs[i] == Assignment(pairs[i])
    ensures QueryPairs(segs) == pairs
  {
    if pairs != [] {
      SegmentsParse(pairs[..|pairs| - 1], segs[..|segs| - 1]);
      SegmentOfAssignment(pairs[|pairs| - 1]);
    }
  }

  /** A repeated key makes the whole query fail, so handle sends no response. */
  lemma RepeatedKeyFails(pairs: seq<(string, string)>, i: int, j: int)
    requires forall k :: 0 <= k < |pairs| ==> Plain(pairs[k].0) && Plain(pairs[k].1) && pairs[k].1 != ""
    requires 0 <= i < j < |pairs| && pairs[i].0 == pairs[j].0
    ensures ParseQuery(Some(Encode(pairs))).Err?
    ensures ParseQuery(Some(Encode(pairs))).error.IllegalState?
  {
    var segs := Assignments(pairs);
    SplitEncoded(pairs);
    SegmentsParse(pairs, segs);
    ToMapSpec(pairs);
  }

  // ----- the response code -----

  const RESPONSE_CODE: string := "X-RESPONSE-CODE"

  /** The response headers: each name maps to its list of values. */
  class Headers {
    var entries: map<string, seq<string>>

    constructor ()
      ensures entries == map[]
    {
      entries := map[];
    }

    /** Headers.set: the name now has exactly this one value. */
    method Set(name: string, value: string)
      modifies this
      ensures entries == old(entries)[name := [value]]
    {
      entries := entries[name := [value]];
    }

    /** Headers.add: the value is appended to the name's list. */
    method Add(name: string, value: string)
      modifies this
      ensures entries == old(entries)[name := (if name in old(entries) then old(entries)[name] else []) + [value]]
    {
      entries := entries[name := (if name in entries then entries[name] else []) + [value]];
    }
  }

  /** getResponseCode on given header entries. */
  function ResponseCodeOf(entries: map<string, seq<string>>): (r: Result<int, HandlerError>)
    ensures RESPONSE_CODE !in entries ==> r == Ok(200)
    ensures r.Ok? ==> IsInt32(r.value)
  {
    var vals := if RESPONSE_CODE in entries then entries[RESPONSE_CODE] else ["200"];
    assert IntToString(200) == "200";
    ParseIntToString(200);
    if vals == [] then Err(IndexOutOfBounds)
    else
      var parsed := ParseInt(vals[0]);
      if parsed.Err? then Err(NumberFormat(vals[0])) else Ok(parsed.value)
  }

  /** getResponseCode: 200 unless a code was set, then the first value parsed. */
  function GetResponseCode(h: Headers): (r: Result<int, HandlerError>)
    reads h
    ensures RESPONSE_CODE !in h.entries ==> r == Ok(200)
  {
    ResponseCodeOf(h.entries)
  }

  /** setResponseCode: the header holds the code's decimal text; no other header changes. */
  method SetResponseCode(h: Headers, value: int)
    modifies h
    ensures h.entries == old(h.entries)[RESPONSE_CODE := [IntToString(value)]]
    ensures IsInt32(value) ==> GetResponseCode(h) == Ok(value)
  {
    h.Set(RESPONSE_CODE, IntToString(value));
    if IsInt32(value) {
      ResponseCodeRoundTrip(old(h.entries), value);
    }
  }

  /** Setting any Java int as the code and reading it back gives that int. */
  lemma ResponseCodeRoundTrip(entries: map<string, seq<string>>, value: int)
    requires IsInt32(value)
    ensures ResponseCodeOf(entries[RESPONSE_CODE := [IntToString(value)]]) == Ok(value)
  {
    ParseIntToString(value);
  }

  // ----- the mouse-move handler -----

  /** qparams.getOrDefault(name, "-1") parsed with Integer.parseInt. */
  function Coordinate(qparams: map<string, string>, name: string): (r: Result<int, HandlerError>)
    ensures name !in qparams ==> r == Ok(-1)
  {
    var text := if name in qparams then qparams[name] else "-1";
    assert "-1" == IntToString(-1);
    ParseIntToString(-1);
    var parsed := ParseInt(text);
    if parsed.Err? then Err(NumberFormat(text)) else Ok(parsed.value)
  }

  /** MouseMoveHandler.handle: the target (x, y); x is read first. */
  function MouseMoveTarget(qparams: map<string, string>): (r: Result<(int, int), HandlerError>)
    ensures r.Err? ==> r.error.NumberFormat?
    ensures "x" !in qparams && "y" !in qparams ==> r == Ok((-1, -1))
  {
    var x := Coordinate(qparams, "x");
    var y := Coordinate(qparams, "y");
    if x.Err? then Err(x.error)
    else if y.Err? then Err(y.error)
    else Ok((x.value, y.value))
  }

  /** Parameters holding the texts of two Java ints move the mouse to those ints. */
  lemma MouseMoveOfTexts(qparams: map<string, string>, x: int, y: int)
    requires IsInt32(x) && IsInt32(y)
    requires "x" in qparams && qparams["x"] == IntToString(x)
    requires "y" in qparams && qparams["y"] == IntToString(y)
    ensures MouseMoveTarget(qparams) == Ok((x, y))
  {
    ParseIntToString(x);
    ParseIntToString(y);
  }

  /** The text of an int has no '=' and no '&' and is not empty. */
  lemma IntTextIsPlain(v: int)
    ensures Plain(IntToString(v)) && IntToString(v) != ""
  {
    var digits := NatToString(if v < 0 then -v else v);
    assert forall i :: 0 <= i < |digits| ==> IsDigit(digits[i]);
    if v < 0 {
      assert IntToString(v) == "-" + digits;
      assert forall i :: 0 <= i < |IntToString(v)| ==> IntToString(v)[i] == '-' || IsDigit(IntToString(v)[i]);
    }
  }

  /**
   * The move the Python client requests, x=<x>&y=<y>, reaches the mouse
   * as the same point for every pair of Java ints.
   */
  lemma MouseMoveRoundTrip(x: int, y: int)
    requires IsInt32(x) && IsInt32(y)
    ensures ParseQuery(Some(Encode([("x", IntToString(x)), ("y", IntToString(y))]))).Ok?
    ensures MouseMoveTarget(ParseQuery(Some(Encode([("x", IntToString(x)), ("y", IntToString(y))]))).value) == Ok((x, y))
  {
    var pairs := [("x", IntToString(x)), ("y", IntToString(y))];
    IntTextIsPlain(x);
    IntTextIsPlain(y);
    assert Plain("x") && Plain("y");
    assert DistinctKeys(pairs);
    ParseEncoded(pairs);
    var m := ParseQuery(Some(Encode(pairs))).value;
    assert m["x"] == IntToString(x) && m["y"] == IntToString(y) by {
      assert pairs[0].0 == "x" && pairs[1].0 == "y";
    }
    MouseMoveOfTexts(m, x, y);
  }
}
