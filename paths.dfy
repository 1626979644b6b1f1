/** Splitting a path into its segments: the pieces between '/' characters, with the
    empty pieces dropped (the getline loops of get_content and set_content). */
module Paths {

  /** The pending token, if it is not empty. */
  function Flush(cur: string): seq<string>
  {
    if cur == [] then [] else [cur]
  }

  /** The segments of `s`, when `cur` has already been read as the start of a token:
      no segment is empty, and none holds a '/' unless the pending token did. */
  function Scan(s: string, cur: string): (r: seq<string>)
    decreases |s|
    ensures forall t :: t in r ==> t != []
    ensures '/' !in cur ==> forall t :: t in r ==> IsSegment(t)
  {
    if s == [] then Flush(cur)
    else if s[0] == '/' then Flush(cur) + Scan(s[1..], [])
    else Scan(s[1..], cur + [s[0]])
  }

  /** The segments of a path: each non-empty and free of '/', and none at all exactly
      when the path is made of '/' only (or is empty). */
  function Segments(path: string): (r: seq<string>)
    ensures forall t :: t in r ==> IsSegment(t)
    ensures r == [] <==> forall i :: 0 <= i < |path| ==> path[i] == '/'
  {
    NoSegments(path, []);
    Scan(path, [])
  }

  /** A path made of the given segments, each preceded by '/'. */
  function Join(segs: seq<string>): string
  {
    if segs == [] then [] else "/" + segs[0] + Join(segs[1..])
  }

  predicate IsSegment(t: string)
  {
    t != [] && '/' !in t
  }

  /** A path has no segment exactly when it is made of '/' only (or is empty). */
  lemma {:induction false} NoSegments(s: string, cur: string)
    ensures Scan(s, cur) == [] <==> cur == [] && forall i :: 0 <= i < |s| ==> s[i] == '/'
    decreases |s|
  {
    if s != [] {
      if s[0] == '/' {
        NoSegments(s[1..], []);
        assert forall i :: 1 <= i < |s| ==> s[i] == s[1..][i - 1];
      } else {
        NoSegments(s[1..], cur + [s[0]]);
      }
    }
  }

  lemma {:induction false} ScanWord(w: string, rest: string, cur: string)
    requires '/' !in w
    ensures Scan(w + rest, cur) == Scan(rest, cur + w)
    decreases |w|
  {
    if w == [] {
      assert w + rest == rest && cur + w == cur;
    } else {
      assert w[0] in w;
      assert (w + rest)[0] == w[0];
      assert (w + rest)[1..] == w[1..] + rest;
      ScanWord(w[1..], rest, cur + [w[0]]);
      assert cur + [w[0]] + w[1..] == cur + w;
    }
  }

  lemma {:induction false} JoinRoundTripFrom(segs: seq<string>, cur: string)
    requires forall t :: t in segs ==> IsSegment(t)
    ensures Scan(Join(segs), cur) == Flush(cur) + segs
    decreases |segs|
  {
    if segs != [] {
      var w, tail := segs[0], segs[1..];
      assert IsSegment(w) by { assert w in segs; }
      assert forall t :: t in tail ==> IsSegment(t) by {
        forall t | t in tail ensures IsSegment(t) { assert t in segs; }
      }
      var rest := Join(tail);
      var s := Join(segs);
      assert s == ['/'] + (w + rest);
      assert s[0] == '/' && s[1..] == w + rest;
      calc {
        Scan(s, cur);
        Flush(cur) + Scan(w + rest, []);
        { ScanWord(w, rest, []); assert [] + w == w; }
        Flush(cur) + Scan(rest, w);
        { JoinRoundTripFrom(tail, w); }
        Flush(cur) + ([w] + tail);
        { assert [w] + tail == segs; }
        Flush(cur) + segs;
      }
    }
  }

  /** Splitting the path built from well-formed segments gives the segments back. */
  lemma JoinRoundTrip(segs: seq<string>)
    requires forall t :: t in segs ==> IsSegment(t)
    ensures Segments(Join(segs)) == segs
  {
    JoinRoundTripFrom(segs, []);
  }

  /** The tokenising loop: accumulate characters, emit a token at each '/' and at the end,
      keeping only non-empty tokens. */
  method Tokenize(path: string) returns (tokens: seq<string>)
    ensures tokens == Segments(path)
    ensures forall t :: t in tokens ==> IsSegment(t)
  {
    tokens := [];
    var cur: string := [];
    var i := 0;
    while i < |path|
      invariant 0 <= i <= |path|
      invariant tokens + Scan(path[i..], cur) == Segments(path)
    {
      assert path[i..][1..] == path[i + 1..];
      if path[i] == '/' {
        if cur != [] {
          tokens := tokens + [cur];
        }
        cur := [];
      } else {
        cur := cur + [path[i]];
      }
      i := i + 1;
    }
    if cur != [] {
      tokens := tokens + [cur];
    }
  }
}
