/**
 * `Uri::ParseVal` of webapp_proto_http.cpp: the five stages of the
 * request-target parser run as a short-circuit conjunction over one
 * cursor.  A stage that answers `false` ends the parse; nothing catches the
 * `std::out_of_range` a stage may raise.
 */
module UriParse {
  import opened Text
  import opened HttpUri
  import opened UriPath
  import opened UriQuery

  /** The stages in order; the first that fails or throws decides the result. */
  function ParseVal(u: Uri, val: string): (r: Throws<Parsed>)
    ensures r.Returns? && r.value.ok ==> ParseScheme(u, val).ok && r.value.uri.scheme == ParseScheme(u, val).uri.scheme
  {
    var s := ParseScheme(u, val);
    if !s.ok then Returns(s)
    else
      var a := ParseAuthority(s.uri, val);
      if a.OutOfRange? || !a.value.ok then a
      else
        var p := ParsePath(a.value.uri, val);
        if p.OutOfRange? || !p.value.ok then p
        else
          var q := ParseQuery(p.value.uri, val);
          if q.OutOfRange? || !q.value.ok then q
          else ParseFragment(q.value.uri, val)
  }

  /**
   * After a successful scheme stage, the authority stage throws exactly on
   * the empty text and when a non-empty scheme's delimiter is the last
   * character.
   */
  lemma {:induction false} AuthorityThrows(u: Uri, val: string)
    requires ParseScheme(u, val).ok
    ensures ParseAuthority(ParseScheme(u, val).uri, val).OutOfRange? <==>
              val == [] || (FindFirstOf(val, SCHEME_END, 0) == Some(|val| - 1) && |val| > 1)
  {
    var s := ParseScheme(u, val);
    AuthorityStartAfterScheme(s.uri, val);
  }

  /** Where the authority stage looks for `"//"` after a successful scheme stage. */
  lemma AuthorityStartAfterScheme(v: Uri, val: string)
    requires v.offset == FindFirstOf(val, SCHEME_END, 0)
    requires |v.scheme| == |UpTo(val, v.offset)|
    ensures AuthorityStart(v).None? || AuthorityStart(v).value >= |val| <==>
              val == [] || (v.offset == Some(|val| - 1) && |val| > 1)
  {
  }

  /**
   * `ParseVal` raises `std::out_of_range` exactly on the empty text and on
   * a non-empty valid scheme whose delimiter is the last character (as in
   * `"http:"`); every other input gets a boolean answer.
   */
  lemma {:induction false} ParseValThrows(u: Uri, val: string)
    ensures ParseVal(u, val).OutOfRange? <==>
              val == [] ||
              (ParseScheme(u, val).ok && FindFirstOf(val, SCHEME_END, 0) == Some(|val| - 1) && |val| > 1)
  {
    var s := ParseScheme(u, val);
    if val == [] {
      assert s.ok;
    }
    if s.ok {
      AuthorityThrows(u, val);
    }
  }
}
