/**
 The decision rules of the list and template views: which template an htmx
 partial request renders, which drawings a visitor may list, and the list of
 authors shown beside them. Database querysets are sequences of records in
 table order.
 */
module Views {
  import opened Text

  /** A registered user: its primary key and its login name. */
  datatype User = User(uuid: string, username: string)

  /** The fields of a drawing that the views read. */
  datatype Drawing = Drawing(id: nat, title: string, author: User, isPrivate: bool)

  /** Who is asking: an anonymous visitor or a logged-in user. */
  datatype Viewer = Anonymous | Authenticated(uuid: string)

  /** The directory segment that marks a template as an htmx partial. */
  const HtmxSegment: string := "htmx/"

  /** `HxPageTemplateMixin.get_template_names`: an htmx request keeps the
      configured template; any other request drops every `htmx/` segment from it. */
  function TemplateNames(htmx: bool, templateName: string): (names: seq<string>)
    ensures |names| == 1
    ensures htmx ==> names[0] == templateName
    ensures !htmx ==> names[0] == RemoveAll(templateName, HtmxSegment)
    ensures !Contains(templateName, HtmxSegment) ==> names[0] == templateName
    ensures |names[0]| <= |templateName|
  {
    if !htmx then
      RemoveAllAbsentIfNoSegment(templateName);
      [RemoveAll(templateName, HtmxSegment)]
    else [templateName]
  }

  lemma RemoveAllAbsentIfNoSegment(s: string)
    ensures !Contains(s, HtmxSegment) ==> RemoveAll(s, HtmxSegment) == s
  {
    if !Contains(s, HtmxSegment) {
      RemoveAllAbsent(s, HtmxSegment);
    }
  }

  /** A full-page request for a template under an `htmx/` directory renders
      the same page one directory up, when that is the only `htmx/` in the name. */
  lemma HtmxDirectoryDropped(dir: string, page: string)
    requires !Contains(dir + "htmx", HtmxSegment) && !Contains(page, HtmxSegment)
    ensures TemplateNames(false, dir + HtmxSegment + page) == [dir + page]
    ensures TemplateNames(true, dir + HtmxSegment + page) == [dir + HtmxSegment + page]
  {
    var s := dir + HtmxSegment + page;
    forall i: nat | i < |dir|
      ensures !OccursAt(s, HtmxSegment, i)
    {
      assert !OccursAt(dir + "htmx", HtmxSegment, i);
      assert (dir + "htmx")[i..i + 5] == s[i..i + 5];
    }
    RemoveAllLeftmost(dir, HtmxSegment, page);
    RemoveAllAbsent(page, HtmxSegment);
  }

  /** The visibility rule of `BaseListView.get_queryset`: the public drawings,
      united for a logged-in user with that user's own private drawings. */
  predicate Listed(d: Drawing, viewer: Viewer) {
    || !d.isPrivate
    || (viewer.Authenticated? && d.author.uuid == viewer.uuid && d.isPrivate)
  }

  /** `BaseListView.get_queryset`, in table order. */
  function Queryset(drawings: seq<Drawing>, viewer: Viewer): (qs: seq<Drawing>)
    ensures |qs| <= |drawings|
  {
    if drawings == [] then []
    else
      var last := drawings[|drawings| - 1];
      Queryset(drawings[..|drawings| - 1], viewer) + (if Listed(last, viewer) then [last] else [])
  }

  /** What a visitor is shown: an anonymous visitor exactly the non-private
      drawings, a logged-in user the non-private drawings and that user's own
      private ones, and never another user's private drawing. */
  lemma {:induction false} QuerysetMembers(drawings: seq<Drawing>, viewer: Viewer)
    ensures viewer.Anonymous? ==> forall d :: d in Queryset(drawings, viewer) <==>
      d in drawings && !d.isPrivate
    ensures viewer.Authenticated? ==> forall d :: d in Queryset(drawings, viewer) <==>
      d in drawings && (!d.isPrivate || d.author.uuid == viewer.uuid)
    ensures forall d :: d in Queryset(drawings, viewer) && d.isPrivate ==>
      viewer.Authenticated? && d.author.uuid == viewer.uuid
    decreases |drawings|
  {
    if drawings != [] {
      var init := drawings[..|drawings| - 1];
      QuerysetMembers(init, viewer);
      assert drawings == init + [drawings[|drawings| - 1]];
    }
  }

  /** The second query of a logged-in user: that user's own private drawings. */
  function OwnPrivate(drawings: seq<Drawing>, uuid: string): (qs: seq<Drawing>)
    ensures forall d :: d in qs <==> d in drawings && d.isPrivate && d.author.uuid == uuid
  {
    if drawings == [] then []
    else
      var last := drawings[|drawings| - 1];
      OwnPrivate(drawings[..|drawings| - 1], uuid)
        + (if last.isPrivate && last.author.uuid == uuid then [last] else [])
  }

  /** Listing keeps table order: the listing of a concatenation is the
      concatenation of the listings. */
  lemma {:induction false} QuerysetKeepsOrder(a: seq<Drawing>, b: seq<Drawing>, viewer: Viewer)
    ensures Queryset(a + b, viewer) == Queryset(a, viewer) + Queryset(b, viewer)
    decreases |b|
  {
    if b == [] {
      assert a + b == a;
    } else {
      var b', last := b[..|b| - 1], b[|b| - 1];
      assert a + b == (a + b') + [last];
      QuerysetSnoc(a + b', last, viewer);
      QuerysetSnoc(b', last, viewer);
      QuerysetKeepsOrder(a, b', viewer);
    }
  }

  /** Listing a table with one more row at the end. */
  lemma QuerysetSnoc(s: seq<Drawing>, x: Drawing, viewer: Viewer)
    ensures Queryset(s + [x], viewer)
         == Queryset(s, viewer) + (if Listed(x, viewer) then [x] else [])
  {
    assert (s + [x])[..|s|] == s;
  }

  /** A logged-in user's listing is the anonymous listing plus that user's
      private drawings, each drawing counted as often as it appears in the table. */
  lemma {:induction false} QuerysetIsUnion(drawings: seq<Drawing>, uuid: string)
    ensures multiset(Queryset(drawings, Authenticated(uuid)))
         == multiset(Queryset(drawings, Anonymous)) + multiset(OwnPrivate(drawings, uuid))
    decreases |drawings|
  {
    if drawings != [] {
      QuerysetIsUnion(drawings[..|drawings| - 1], uuid);
    }
  }

  /** `values_list("user__username", flat=True)` over every drawing. */
  function Usernames(drawings: seq<Drawing>): (names: seq<string>)
    ensures |names| == |drawings|
    ensures forall i :: 0 <= i < |drawings| ==> names[i] == drawings[i].author.username
  {
    if drawings == [] then []
    else Usernames(drawings[..|drawings| - 1]) + [drawings[|drawings| - 1].author.username]
  }

  /** No element appears twice. */
  predicate Distinct<T(==)>(s: seq<T>) {
    forall i, j :: 0 <= i < j < |s| ==> s[i] != s[j]
  }

  /** The index of the first occurrence of `x`. */
  function IndexOf<T(==)>(s: seq<T>, x: T): (k: nat)
    requires x in s
    ensures k < |s| && s[k] == x && x !in s[..k]
  {
    if s[0] == x then 0
    else
      assert s == [s[0]] + s[1..];
      var k := 1 + IndexOf(s[1..], x);
      assert s[..k] == [s[0]] + s[1..][..k - 1];
      k
  }

  /** Reference definition of `list(dict.fromkeys(s))`: the elements of `s`
      kept at their first occurrence. */
  function FirstOccurrences<T(==)>(s: seq<T>): seq<T> {
    if s == [] then []
    else
      var init := s[..|s| - 1];
      FirstOccurrences(init) + (if s[|s| - 1] in init then [] else [s[|s| - 1]])
  }

  lemma {:induction false} FirstOccurrencesMembers<T>(s: seq<T>)
    ensures forall x :: x in FirstOccurrences(s) <==> x in s
    decreases |s|
  {
    if s != [] {
      FirstOccurrencesMembers(s[..|s| - 1]);
      assert s == s[..|s| - 1] + [s[|s| - 1]];
    }
  }

  lemma {:induction false} FirstOccurrencesDistinct<T>(s: seq<T>)
    ensures Distinct(FirstOccurrences(s))
    decreases |s|
  {
    if s != [] {
      FirstOccurrencesDistinct(s[..|s| - 1]);
      FirstOccurrencesMembers(s[..|s| - 1]);
    }
  }

  /** Appending to a sequence does not move the first occurrence of an element
      already present. */
  lemma {:induction false} IndexOfExtend<T>(s: seq<T>, y: T, x: T)
    requires x in s
    ensures x in s + [y] && IndexOf(s + [y], x) == IndexOf(s, x)
    decreases |s|
  {
    if s[0] != x {
      assert (s + [y])[1..] == s[1..] + [y];
      IndexOfExtend(s[1..], y, x);
    }
  }

  /** An element absent from `s` is first found at the end of `s + [x]`. */
  lemma IndexOfNew<T>(s: seq<T>, x: T)
    requires x !in s
    ensures x in s + [x] && IndexOf(s + [x], x) == |s|
  {
  }

  lemma {:induction false} FirstOccurrencesOrdered<T>(s: seq<T>)
    ensures forall x :: x in FirstOccurrences(s) ==> x in s
    ensures forall i, j :: 0 <= i < j < |FirstOccurrences(s)| ==>
      IndexOf(s, FirstOccurrences(s)[i]) < IndexOf(s, FirstOccurrences(s)[j])
    decreases |s|
  {
    FirstOccurrencesMembers(s);
    if s != [] {
      var init, last := s[..|s| - 1], s[|s| - 1];
      assert s == init + [last];
      FirstOccurrencesOrdered(init);
      var p, r := FirstOccurrences(init), FirstOccurrences(s);
      forall i, j | 0 <= i < j < |r|
        ensures IndexOf(s, r[i]) < IndexOf(s, r[j])
      {
        assert r[i] == p[i];
        IndexOfExtend(init, last, p[i]);
        if j < |p| {
          assert r[j] == p[j];
          IndexOfExtend(init, last, p[j]);
        } else {
          assert r[j] == last && last !in init;
          IndexOfNew(init, last);
        }
      }
    }
  }

  /** `list(dict.fromkeys(s))`: one pass with a set of the keys seen so far. */
  method Deduplicate<T(==)>(s: seq<T>) returns (r: seq<T>)
    ensures Distinct(r)
    ensures forall x :: x in r <==> x in s
    ensures forall i, j :: 0 <= i < j < |r| ==> IndexOf(s, r[i]) < IndexOf(s, r[j])
    ensures r == FirstOccurrences(s)
  {
    r := [];
    var seen: set<T> := {};
    for k := 0 to |s|
      invariant forall x :: x in seen <==> x in s[..k]
      invariant r == FirstOccurrences(s[..k])
    {
      assert s[..k + 1][..k] == s[..k];
      if s[k] !in seen {
        r := r + [s[k]];
        seen := seen + {s[k]};
      }
    }
    assert s[..|s|] == s;
    FirstOccurrencesMembers(s);
    FirstOccurrencesDistinct(s);
    FirstOccurrencesOrdered(s);
  }

  /** The author list of `BaseListView.get_context_data`: the usernames of the
      authors of all drawings, each once, in order of first appearance. */
  method Authors(drawings: seq<Drawing>) returns (authors: seq<string>)
    ensures Distinct(authors)
    ensures forall d :: d in drawings ==> d.author.username in authors
    ensures forall a :: a in authors ==> exists d :: d in drawings && d.author.username == a
    ensures authors == FirstOccurrences(Usernames(drawings))
  {
    var names := Usernames(drawings);
    authors := Deduplicate(names);
    forall d | d in drawings
      ensures d.author.username in authors
    {
      var i :| 0 <= i < |drawings| && drawings[i] == d;
      assert names[i] == d.author.username;
    }
    forall a | a in authors
      ensures exists d :: d in drawings && d.author.username == a
    {
      var i :| 0 <= i < |names| && names[i] == a;
      assert drawings[i] in drawings;
    }
  }

  /** Every author of a listed drawing is in the author list, whoever asks. */
  lemma AuthorsCoverListing(drawings: seq<Drawing>, viewer: Viewer, d: Drawing)
    requires d in Queryset(drawings, viewer)
    ensures d.author.username in FirstOccurrences(Usernames(drawings))
  {
    QuerysetMembers(drawings, viewer);
    assert d in drawings;
    var i :| 0 <= i < |drawings| && drawings[i] == d;
    var names := Usernames(drawings);
    assert names[i] == d.author.username;
    FirstOccurrencesMembers(names);
  }

  /** The author list is built from every drawing, private ones included: an
      author whose only drawing is private is listed for an anonymous visitor
      who is shown none of that author's drawings. */
  lemma AuthorsIncludePrivateOnlyAuthors()
    ensures var u := User("u1", "alice");
      var ds := [Drawing(1, "Bar", u, true)];
      && Queryset(ds, Anonymous) == []
      && "alice" in FirstOccurrences(Usernames(ds))
  {
  }
}
