/** The JSON Resource Descriptor (JRD) of section 4.4 of RFC 7033 as the client hands
    it out: the document, its links, and the accessors for properties and for the
    link with a given relation type. */
module Descriptor {
  import opened Wrappers

  /** Properties map URIs to values. Section 4.4.3 of RFC 7033 allows a value to be a
      string or null; with an absent key that makes three states. */
  type Properties = map<string, Option<string>>

  /** The value of a property: its string when it has one, and "" when it is null or
      absent. */
  function PropertyValue(properties: Properties, name: string): (value: string)
    ensures name in properties && properties[name].Some? ==> value == properties[name].value
    ensures name in properties && properties[name].None? ==> value == ""
    ensures name !in properties ==> value == ""
  {
    if name in properties then
      match properties[name]
      case Some(s) => s
      case None => ""
    else ""
  }

  /** A point in time (UTC), as the `expires` member is decoded. */
  datatype Time = Time(year: int, month: int, day: int, hour: int, minute: int, second: int)

  /** A link of a JRD (section 4.4.4 of RFC 7033). Absent string members are "". */
  datatype Link = Link(
    rel: string,
    mediaType: string,
    href: string,
    titles: map<string, string>,
    properties: Properties,
    template: string)
  {
    /** Link.GetProperty: the value of one of the link's own properties. */
    function GetProperty(name: string): (value: string)
      ensures name in properties && properties[name].Some? ==> value == properties[name].value
      ensures name !in properties || properties[name].None? ==> value == ""
    {
      PropertyValue(properties, name)
    }
  }

  /** A JRD document. */
  datatype Jrd = Jrd(
    subject: string,
    expires: Option<Time>,
    aliases: seq<string>,
    properties: Properties,
    links: seq<Link>)
  {
    /** JRD.GetProperty: the value of one of the document's properties. */
    function GetProperty(name: string): (value: string)
      ensures name in properties && properties[name].Some? ==> value == properties[name].value
      ensures name !in properties || properties[name].None? ==> value == ""
    {
      PropertyValue(properties, name)
    }

    /** JRD.GetLinkByRel: the first link, in document order, with relation type
        `rel`; None when there is none. */
    function GetLinkByRel(rel: string): (link: Option<Link>)
      ensures link.None? <==> forall i :: 0 <= i < |links| ==> links[i].rel != rel
      ensures link.Some? ==> exists i :: FirstWithRel(links, rel, i) && link.value == links[i]
    {
      match FirstIndex(links, rel)
      case None => None
      case Some(i) => Some(links[i])
    }
  }

  /** `i` is the position of the first link with relation type `rel`. */
  predicate FirstWithRel(links: seq<Link>, rel: string, i: int) {
    0 <= i < |links| && links[i].rel == rel && forall j :: 0 <= j < i ==> links[j].rel != rel
  }

  /** The position of the first link with relation type `rel`. */
  function FirstIndex(links: seq<Link>, rel: string): (r: Option<nat>)
    ensures r.None? <==> forall i :: 0 <= i < |links| ==> links[i].rel != rel
    ensures r.Some? ==> FirstWithRel(links, rel, r.value)
  {
    if links == [] then None
    else if links[0].rel == rel then Some(0)
    else
      match FirstIndex(links[1..], rel)
      case None =>
        assert forall i :: 1 <= i < |links| ==> links[i] == links[1..][i - 1];
        None
      case Some(i) =>
        assert forall j :: 1 <= j < i + 1 ==> links[j] == links[1..][j - 1];
        Some(i + 1)
  }

  /** First match wins: links added after a matching link do not change what
      GetLinkByRel returns, and links added before one only matter if they match. */
  lemma {:induction false} FirstIndexAppend(links: seq<Link>, more: seq<Link>, rel: string)
    ensures FirstIndex(links, rel).Some? ==> FirstIndex(links + more, rel) == FirstIndex(links, rel)
    ensures FirstIndex(links, rel).None? && FirstIndex(more, rel).Some? ==>
      FirstIndex(links + more, rel) == Some(|links| + FirstIndex(more, rel).value)
    ensures FirstIndex(links, rel).None? && FirstIndex(more, rel).None? ==> FirstIndex(links + more, rel).None?
  {
    match FirstIndex(links, rel)
    case Some(i) =>
      FoundBefore(links, more, rel, i);
    case None =>
      match FirstIndex(more, rel)
      case Some(k) =>
        FoundAfter(links, more, rel, k);
      case None =>
        FoundNowhere(links, more, rel);
  }

  lemma {:induction false} FoundBefore(links: seq<Link>, more: seq<Link>, rel: string, i: nat)
    requires FirstWithRel(links, rel, i)
    ensures FirstIndex(links + more, rel) == Some(i)
  {
    var all := links + more;
    assert forall j :: 0 <= j <= i ==> all[j] == links[j];
    FirstIndexIs(all, rel, i);
  }

  lemma {:induction false} FoundAfter(links: seq<Link>, more: seq<Link>, rel: string, k: nat)
    requires forall i :: 0 <= i < |links| ==> links[i].rel != rel
    requires FirstWithRel(more, rel, k)
    ensures FirstIndex(links + more, rel) == Some(|links| + k)
  {
    var all := links + more;
    assert forall j :: 0 <= j < |links| ==> all[j] == links[j];
    assert forall j :: |links| <= j <= |links| + k ==> all[j] == more[j - |links|];
    FirstIndexIs(all, rel, |links| + k);
  }

  lemma {:induction false} FoundNowhere(links: seq<Link>, more: seq<Link>, rel: string)
    requires forall i :: 0 <= i < |links| ==> links[i].rel != rel
    requires forall i :: 0 <= i < |more| ==> more[i].rel != rel
    ensures FirstIndex(links + more, rel).None?
  {
    var all := links + more;
    assert forall j :: 0 <= j < |links| ==> all[j] == links[j];
    assert forall j :: |links| <= j < |all| ==> all[j] == more[j - |links|];
  }

  /** The first link with relation type `rel` is the one FirstIndex finds. */
  lemma FirstIndexIs(links: seq<Link>, rel: string, i: nat)
    requires FirstWithRel(links, rel, i)
    ensures FirstIndex(links, rel) == Some(i)
  {
    var r := FirstIndex(links, rel);
    assert r.Some?;
    assert !(r.value < i) && !(i < r.value);
  }

  lemma GetLinkByRelAppend(d: Jrd, more: seq<Link>, rel: string)
    ensures d.GetLinkByRel(rel).Some? ==> d.(links := d.links + more).GetLinkByRel(rel) == d.GetLinkByRel(rel)
  {
    FirstIndexAppend(d.links, more, rel);
  }

  // ---------------------------------------------------------------------------
  // The example document of Appendix A of RFC 6415

  const AuthorLink := Link(
    "author", "text/html", "http://blog.example.com/author/steve",
    map["default" := "About the Author", "en-us" := "Author Information"],
    map["http://example.com/role" := Some("editor")],
    "")

  const OtherAuthorLink := Link(
    "author", "", "http://example.com/author/john",
    map["default" := "The other author"],
    map[],
    "")

  const CopyrightLink := Link(
    "copyright", "", "", map[], map[], "http://example.com/copyright?id={uri}")

  const Example := Jrd(
    "http://blog.example.com/article/id/314",
    Some(Time(2010, 1, 30, 9, 30, 0)),
    ["http://blog.example.com/cool_new_thing", "http://blog.example.com/steve/article/7"],
    map["http://blgx.example.net/ns/version" := Some("1.3"), "http://blgx.example.net/ns/ext" := None],
    [AuthorLink, OtherAuthorLink, CopyrightLink])

  /** The accessors on the example document: a string property, a null property and
      an absent one; the first of two "author" links; the "copyright" link with its
      template; no link for an unknown relation type. */
  lemma ExampleAccessors()
    ensures Example.GetProperty("http://blgx.example.net/ns/version") == "1.3"
    ensures Example.GetProperty("http://blgx.example.net/ns/ext") == ""
    ensures Example.GetProperty("does-not-exist") == ""
    ensures Example.GetLinkByRel("copyright").Some?
    ensures Example.GetLinkByRel("copyright").value.template == "http://example.com/copyright?id={uri}"
    ensures Example.GetLinkByRel("author").Some?
    ensures Example.GetLinkByRel("author").value.titles["default"] == "About the Author"
    ensures Example.GetLinkByRel("author").value.GetProperty("http://example.com/role") == "editor"
    ensures Example.GetLinkByRel("author").value.GetProperty("does-not-exist") == ""
    ensures Example.GetLinkByRel("does-not-exist").None?
  {
    assert FirstIndex(Example.links, "author") == Some(0);
    var links := Example.links;
    assert links[1..][1..] == [CopyrightLink];
    assert FirstIndex(links[1..][1..], "copyright") == Some(0);
    assert FirstIndex(links[1..], "copyright") == Some(1);
    assert FirstIndex(links, "copyright") == Some(2);
    assert links[1..][1..][1..] == [];
    assert FirstIndex(links, "does-not-exist").None?;
  }
}
