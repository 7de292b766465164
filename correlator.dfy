/**
 * The request correlator of the embedded listener (`extractConnectionId`):
 * it finds the connection id of an inbound delivery in the request path or,
 * failing that, in the query string.
 */
module Correlator {
  import opened JavaLang

  /** The query parameter prefix the correlator looks for. */
  const IdParam := "connection_id="

  /**
   * The path names the id: it is present, it is not exactly "/", and
   * `split("/")` yields more than one element.
   */
  predicate PathCarriesId(path: Option<string>) {
    path.Some? && path.value != "/" && |Split(path.value, '/')| > 1
  }

  /**
   * The text after "connection_id=" in the first parameter that starts with
   * it; the value is returned as it is, without percent-decoding.
   */
  function FirstIdParam(params: seq<string>): (r: Option<string>)
    ensures r.None? <==> forall i :: 0 <= i < |params| ==> !StartsWith(params[i], IdParam)
    ensures r.Some? ==> exists i :: 0 <= i < |params| && params[i] == IdParam + r.value &&
                                    forall j :: 0 <= j < i ==> !StartsWith(params[j], IdParam)
    decreases |params|
  {
    if |params| == 0 then None
    else if StartsWith(params[0], IdParam) then
      assert params[0] == IdParam + params[0][|IdParam|..];
      Some(params[0][|IdParam|..])
    else
      var r := FirstIdParam(params[1..]);
      assert forall i :: 1 <= i < |params| ==> params[i] == params[1..][i - 1];
      r
  }

  /**
   * `extractConnectionId(path, query)`: the last element of the split path
   * when the path carries one, otherwise the first "connection_id=" query
   * parameter, otherwise null.
   */
  function ExtractConnectionId(path: Option<string>, query: Option<string>): (r: Option<string>)
    ensures PathCarriesId(path) ==> r.Some? && r.value != "" && '/' !in r.value
    ensures !PathCarriesId(path) && (query.None? || !Contains(query.value, IdParam)) ==> r.None?
  {
    if PathCarriesId(path) then
      var parts := Split(path.value, '/');
      assert parts[|parts| - 1] in parts;
      Some(parts[|parts| - 1])
    else if query.Some? && Contains(query.value, IdParam) then
      FirstIdParam(Split(query.value, '&'))
    else
      None
  }

  // ---------------------------------------------------------------------
  // The path takes precedence
  // ---------------------------------------------------------------------

  /**
   * `r` stands at offset `k` of `path` as its last segment: right after a
   * "/", and followed by nothing but "/".
   */
  ghost predicate SegmentAt(path: string, k: int, r: string) {
    1 <= k && k + |r| <= |path| && path[k - 1] == '/' && path[k..k + |r|] == r &&
    forall j :: k + |r| <= j < |path| ==> path[j] == '/'
  }

  /** `r` is the last non-empty segment of `path`. */
  ghost predicate IsLastSegment(path: string, r: string) {
    r != "" && '/' !in r && exists k :: SegmentAt(path, k, r)
  }

  /** A path has at most one last segment. */
  lemma LastSegmentUnique(path: string, r1: string, r2: string)
    requires IsLastSegment(path, r1) && IsLastSegment(path, r2)
    ensures r1 == r2
  {
    var k1 :| SegmentAt(path, k1, r1);
    var k2 :| SegmentAt(path, k2, r2);
    SegmentShape(path, k1, r1);
    SegmentShape(path, k2, r2);
    // each segment ends just after the last character that is not "/",
    // and starts just after the "/" before it
    assert path[k1 + |r1| - 1] != '/' && path[k2 + |r2| - 1] != '/';
    assert k1 + |r1| == k2 + |r2|;
    assert k1 == k2;
  }

  /** A last segment is a run of characters other than "/" with "/" before it and only "/" after. */
  lemma SegmentShape(path: string, k: int, r: string)
    requires SegmentAt(path, k, r) && r != "" && '/' !in r
    ensures path[k - 1] == '/'
    ensures forall j :: k <= j < k + |r| ==> path[j] != '/'
    ensures forall j :: k + |r| <= j < |path| ==> path[j] == '/'
  {
    forall j | k <= j < k + |r|
      ensures path[j] != '/'
    {
      assert path[j] == r[j - k];
      assert r[j - k] in r;
    }
  }

  lemma SegmentAtDecomposed(head: string, r: string, t: nat)
    ensures SegmentAt(head + ['/'] + r + Repeat('/', t), |head| + 1, r)
  {
    var path := head + ['/'] + r + Repeat('/', t);
    var k := |head| + 1;
    assert path[k..k + |r|] == r;
    assert forall j :: k + |r| <= j < |path| ==> path[j] == Repeat('/', t)[j - k - |r|];
  }

  /** A non-empty piece followed only by empty pieces is the last segment of the join. */
  lemma LastPieceIsLastSegment(P: seq<string>, m: nat)
    requires 1 <= m < |P| && P[m] != "" && '/' !in P[m]
    requires forall i :: m < i < |P| ==> P[i] == ""
    ensures IsLastSegment(Join(P, '/'), P[m])
  {
    JoinAroundPiece(P, m, '/');
    SegmentAtDecomposed(Join(P[..m], '/'), P[m], |P| - m - 1);
  }

  /** The join is the pieces before `m`, a separator, piece `m`, and one separator per empty piece after it. */
  lemma JoinAroundPiece(P: seq<string>, m: nat, sep: char)
    requires 1 <= m < |P|
    requires forall i :: m < i < |P| ==> P[i] == ""
    ensures Join(P, sep) == Join(P[..m], sep) + [sep] + P[m] + Repeat(sep, |P| - m - 1)
  {
    JoinEmptyTail(P, m + 1, sep);
    JoinAt(P, m, sep);
  }

  /** When `split("/")` gives more than one element, the last one is the last segment. */
  lemma {:induction false} SplitLastIsLastSegment(path: string)
    requires |Split(path, '/')| > 1
    ensures IsLastSegment(path, Split(path, '/')[|Split(path, '/')| - 1])
  {
    var P := Pieces(path, '/');
    var R := Split(path, '/');
    var m := |R| - 1;
    assert R[m] in R;
    assert '/' in path && R == TrimTrailingEmpty(P);
    assert R[m] == P[m];
    PiecesJoin(path, '/');
    LastPieceIsLastSegment(P, m);
  }

  /**
   * A path that starts with "/" carries an id exactly when it has a
   * character other than "/"; so "/", "//" and the like fall through to
   * the query.
   */
  lemma RootedPathCarriesId(path: string)
    requires |path| > 0 && path[0] == '/'
    ensures PathCarriesId(Some(path)) <==> exists i :: 0 <= i < |path| && path[i] != '/'
  {
    if PathCarriesId(Some(path)) {
      PathIdHasNonSlash(path);
    }
    if exists i :: 0 <= i < |path| && path[i] != '/' {
      NonSlashGivesPathId(path);
    }
  }

  lemma PathIdHasNonSlash(path: string)
    requires PathCarriesId(Some(path))
    ensures exists i :: 0 <= i < |path| && path[i] != '/'
  {
    SplitLastIsLastSegment(path);
    var R := Split(path, '/');
    var r := R[|R| - 1];
    var k :| SegmentAt(path, k, r);
    assert path[k] == r[0];
    assert r[0] in r;
  }

  lemma NonSlashGivesPathId(path: string)
    requires |path| > 0 && path[0] == '/'
    requires exists i :: 0 <= i < |path| && path[i] != '/'
    ensures PathCarriesId(Some(path))
  {
    var i :| 0 <= i < |path| && path[i] != '/';
    var P := Pieces(path, '/');
    LeadingSepGivesEmptyPiece(path, '/');
    PiecesJoin(path, '/');
    var R := TrimTrailingEmpty(P);
    if |R| == 0 {
      // every piece is empty, so the path would be slashes only
      JoinEmptyTail(P, 1, '/');
      assert false;
    }
    assert R[0] == P[0];
  }

  /**
   * Once the path carries an id, the result is its last segment, whatever
   * the query holds (a "connection_id=" there is ignored).
   */
  lemma PathSegmentWins(path: string, query: Option<string>)
    requires PathCarriesId(Some(path))
    ensures ExtractConnectionId(Some(path), query).Some?
    ensures IsLastSegment(path, ExtractConnectionId(Some(path), query).value)
    ensures ExtractConnectionId(Some(path), query) == ExtractConnectionId(Some(path), None)
  {
    SplitLastIsLastSegment(path);
  }

  // ---------------------------------------------------------------------
  // The query is the fallback
  // ---------------------------------------------------------------------

  /** The dropped trailing empty strings never start with "connection_id=". */
  lemma {:induction false} FirstIdParamOfPrefix(ps: seq<string>, j: nat)
    requires j <= |ps|
    requires forall i :: j <= i < |ps| ==> !StartsWith(ps[i], IdParam)
    ensures FirstIdParam(ps[..j]) == FirstIdParam(ps)
    decreases j
  {
    if j == 0 {
      assert FirstIdParam(ps).None?;
    } else if !StartsWith(ps[0], IdParam) {
      assert ps[..j][0] == ps[0];
      assert ps[..j][1..] == ps[1..][..j - 1];
      FirstIdParamOfPrefix(ps[1..], j - 1);
    } else {
      assert ps[..j][0] == ps[0];
    }
  }

  /** `split("&")` and the bare pieces agree on the first "connection_id=" parameter. */
  lemma SplitKeepsFirstIdParam(query: string)
    ensures FirstIdParam(Split(query, '&')) == FirstIdParam(Pieces(query, '&'))
  {
    var P := Pieces(query, '&');
    if '&' in query {
      var R := TrimTrailingEmpty(P);
      assert R == P[..|R|];
      FirstIdParamOfPrefix(P, |R|);
    } else {
      PiecesWithoutSep(query, '&');
    }
  }

  /**
   * When the path carries no id, the result is decided by the query's
   * "&"-separated parameters alone, empty ones included; the
   * `contains("connection_id=")` pre-check never changes it.
   */
  lemma QueryFallback(path: Option<string>, query: string)
    requires !PathCarriesId(path)
    ensures ExtractConnectionId(path, Some(query)) == FirstIdParam(Pieces(query, '&'))
  {
    SplitKeepsFirstIdParam(query);
    var P := Pieces(query, '&');
    if FirstIdParam(P).Some? {
      var i :| 0 <= i < |P| && P[i] == IdParam + FirstIdParam(P).value &&
               forall j :: 0 <= j < i ==> !StartsWith(P[j], IdParam);
      assert StartsWith(P[i], IdParam);
      PieceContained(query, '&', i, IdParam);
    }
  }

  /**
   * The first "connection_id=" parameter supplies the id, raw and possibly
   * empty, when the path carries none.
   */
  lemma QueryFirstMatch(path: Option<string>, params: seq<string>, i: nat, v: string)
    requires !PathCarriesId(path)
    requires forall p :: p in params ==> '&' !in p
    requires i < |params| && params[i] == IdParam + v
    requires forall j :: 0 <= j < i ==> !StartsWith(params[j], IdParam)
    ensures ExtractConnectionId(path, Some(Join(params, '&'))) == Some(v)
  {
    JoinPieces(params, '&');
    QueryFallback(path, Join(params, '&'));
    FirstIdParamAt(params, i, v);
  }

  /** The parameter at the first index that starts with "connection_id=" decides. */
  lemma FirstIdParamAt(params: seq<string>, i: nat, v: string)
    requires i < |params| && params[i] == IdParam + v
    requires forall j :: 0 <= j < i ==> !StartsWith(params[j], IdParam)
    ensures FirstIdParam(params) == Some(v)
  {
    assert StartsWith(params[i], IdParam);
    var r := FirstIdParam(params);
    var i1 :| 0 <= i1 < |params| && params[i1] == IdParam + r.value &&
              forall j :: 0 <= j < i1 ==> !StartsWith(params[j], IdParam);
    assert StartsWith(params[i1], IdParam);
    assert i1 == i;
    assert (IdParam + v)[|IdParam|..] == v;
    assert (IdParam + r.value)[|IdParam|..] == r.value;
  }

  /** Without a path id and without a "connection_id=" parameter there is no id. */
  lemma QueryWithoutIdParam(path: Option<string>, params: seq<string>)
    requires !PathCarriesId(path)
    requires |params| >= 1 && forall p :: p in params ==> '&' !in p
    requires forall j :: 0 <= j < |params| ==> !StartsWith(params[j], IdParam)
    ensures ExtractConnectionId(path, Some(Join(params, '&'))) == None
    ensures ExtractConnectionId(path, None) == None
  {
    JoinPieces(params, '&');
    QueryFallback(path, Join(params, '&'));
  }

  /** A path id wins over a "connection_id=" in the query. */
  lemma PathExample()
    ensures ExtractConnectionId(Some("/abc/conn123"), Some("connection_id=other")) == Some("conn123")
  {
    var path := "/abc/conn123";
    assert path[5..12] == "conn123";
    assert SegmentAt(path, 5, "conn123");
    RootedLastSegment(path, Some("connection_id=other"), 5, "conn123");
  }

  /** A path starting with `/` whose last segment is `r` yields `r`, whatever the query. */
  lemma RootedLastSegment(path: string, query: Option<string>, k: int, r: string)
    requires |path| > 0 && path[0] == '/'
    requires SegmentAt(path, k, r) && r != "" && '/' !in r
    ensures ExtractConnectionId(Some(path), query) == Some(r)
  {
    assert path[k] == r[0] != '/';
    NonSlashGivesPathId(path);
    PathIdIsLastSegment(path, query, r);
  }

  /** A path that carries an id yields its last segment, whatever the query. */
  lemma PathIdIsLastSegment(path: string, query: Option<string>, r: string)
    requires PathCarriesId(Some(path)) && IsLastSegment(path, r)
    ensures ExtractConnectionId(Some(path), query) == Some(r)
  {
    PathSegmentWins(path, query);
    LastSegmentUnique(path, ExtractConnectionId(Some(path), query).value, r);
  }

  /** The root path falls back to the query, and to null without one. */
  lemma RootPathExamples()
    ensures ExtractConnectionId(Some("/"), Some("connection_id=xyz")) == Some("xyz")
    ensures ExtractConnectionId(Some("/"), None) == None
  {
    assert Join(["connection_id=xyz"], '&') == "connection_id=xyz";
    assert "connection_id=xyz" == IdParam + "xyz";
    QueryFirstMatch(Some("/"), ["connection_id=xyz"], 0, "xyz");
  }

  /**
   * The first of several "connection_id=" parameters wins, even when its
   * value is empty: the query `a=1&connection_id=&connection_id=z` gives "".
   */
  lemma RepeatedParamExample()
    ensures ExtractConnectionId(Some("/"), Some(Join(["a=1", "connection_id=", "connection_id=z"], '&'))) == Some("")
  {
    var params := ["a=1", "connection_id=", "connection_id=z"];
    assert forall p :: p in params ==> '&' !in p by {
      assert forall p :: p in params ==> p == params[0] || p == params[1] || p == params[2];
    }
    assert !StartsWith(params[0], IdParam);
    assert params[1] == IdParam + "";
    QueryFirstMatch(Some("/"), params, 1, "");
  }
}
