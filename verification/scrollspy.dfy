/** The scrollspy: the section the reader has scrolled to, and the nav
    links that get `aria-current="page"` for it. Positions are whole pixels;
    `offset` is the scroll position plus the sticky header's allowance. */
module Scrollspy {

  /** A `main section` or the site header, in document order: its `id`
      (empty when it has none) and the page offset of its top edge. */
  datatype Section = Section(id: string, top: int)

  /** `section.id || 'home'`. */
  function IdOrHome(id: string): (r: string)
    ensures r != ""
    ensures id != "" ==> r == id
    ensures id == "" ==> r == "home"
  {
    if id == "" then "home" else id
  }

  /** A section counts as reached once the offset is within one pixel of
      its top. */
  predicate Reached(offset: int, s: Section) {
    offset >= s.top - 1
  }

  /** The current section after looking at `sections` in order: the last one
      reached wins, and "home" stands when none is. */
  function Selected(offset: int, sections: seq<Section>): (id: string)
    ensures id != ""
    ensures sections != [] && Reached(offset, sections[|sections| - 1]) ==>
      id == IdOrHome(sections[|sections| - 1].id)
  {
    if sections == [] then "home"
    else
      var last := sections[|sections| - 1];
      if Reached(offset, last) then IdOrHome(last.id) else Selected(offset, sections[..|sections| - 1])
  }

  /** What the selection means: with no section reached it is "home";
      otherwise it comes from a reached section with no reached section
      after it. */
  lemma {:induction false} SelectedSpec(offset: int, sections: seq<Section>)
    ensures Selected(offset, sections) != ""
    ensures (forall i | 0 <= i < |sections| :: !Reached(offset, sections[i])) ==>
      Selected(offset, sections) == "home"
    ensures (exists i | 0 <= i < |sections| :: Reached(offset, sections[i])) ==>
      exists i | 0 <= i < |sections| ::
        && Reached(offset, sections[i])
        && (forall j | i < j < |sections| :: !Reached(offset, sections[j]))
        && Selected(offset, sections) == IdOrHome(sections[i].id)
  {
    if sections != [] {
      var n := |sections| - 1;
      var init := sections[..n];
      SelectedSpec(offset, init);
      if Reached(offset, sections[n]) {
        assert Selected(offset, sections) == IdOrHome(sections[n].id);
      } else {
        assert Selected(offset, sections) == Selected(offset, init);
        if exists i | 0 <= i < |sections| :: Reached(offset, sections[i]) {
          var k :| 0 <= k < |sections| && Reached(offset, sections[k]);
          assert k < n && init[k] == sections[k];
          var i :| 0 <= i < |init| && Reached(offset, init[i])
            && (forall j | i < j < |init| :: !Reached(offset, init[j]))
            && Selected(offset, init) == IdOrHome(init[i].id);
          assert sections[i] == init[i];
          forall j | i < j < |sections| ensures !Reached(offset, sections[j]) {
            if j < n {
              assert sections[j] == init[j];
            }
          }
        }
        if forall i | 0 <= i < |sections| :: !Reached(offset, sections[i]) {
          forall i | 0 <= i < |init| ensures !Reached(offset, init[i]) {
            assert init[i] == sections[i];
          }
        }
      }
    }
  }

  /** Sections past the offset never matter: dropping unreached sections
      from the end leaves the selection unchanged, and a reached section
      appended decides it alone. */
  lemma AppendSection(offset: int, sections: seq<Section>, s: Section)
    ensures Selected(offset, sections + [s]) ==
      if Reached(offset, s) then IdOrHome(s.id) else Selected(offset, sections)
  {
    assert (sections + [s])[..|sections|] == sections;
  }

  /** The loop of `updateActiveLink` that picks the current section. */
  method CurrentId(offset: int, sections: seq<Section>) returns (currentId: string)
    ensures currentId == Selected(offset, sections)
  {
    currentId := "home";
    for i := 0 to |sections|
      invariant currentId == Selected(offset, sections[..i])
    {
      var section := sections[i];
      assert sections[..i + 1] == sections[..i] + [section];
      AppendSection(offset, sections[..i], section);
      if offset >= section.top - 1 {
        currentId := IdOrHome(section.id);
      }
    }
    assert sections[..|sections|] == sections;
  }

  /** Whether a link with this `href` (empty when the attribute is missing)
      is the current one: its `href` is a fragment naming the section. */
  function Marks(href: string, currentId: string): (marked: bool)
    ensures marked <==> currentId != "" && href == "#" + currentId
  {
    var id := if |href| > 0 && href[0] == '#' then href[1..] else "";
    if id != "" && id == currentId then
      assert href == "#" + id;
      true
    else
      false
  }

  /** The link loop of `updateActiveLink`: `marked[k]` says whether link `k`
      carries `aria-current="page"` afterwards. Every link is rewritten, so
      a link marked for an earlier section is cleared. */
  method MarkLinks(hrefs: seq<string>, currentId: string) returns (marked: seq<bool>)
    ensures |marked| == |hrefs|
    ensures forall k | 0 <= k < |hrefs| :: marked[k] <==> currentId != "" && hrefs[k] == "#" + currentId
  {
    marked := [];
    for k := 0 to |hrefs|
      invariant |marked| == k
      invariant forall m | 0 <= m < k :: marked[m] == Marks(hrefs[m], currentId)
    {
      marked := marked + [Marks(hrefs[k], currentId)];
    }
  }

  /** One scroll: the links marked are exactly those pointing at the section
      selected; links to any other section are unmarked. */
  method UpdateActiveLink(offset: int, sections: seq<Section>, hrefs: seq<string>)
    returns (currentId: string, marked: seq<bool>)
    ensures currentId == Selected(offset, sections) && currentId != ""
    ensures |marked| == |hrefs|
    ensures forall k | 0 <= k < |hrefs| :: marked[k] <==> hrefs[k] == "#" + currentId
  {
    currentId := CurrentId(offset, sections);
    SelectedSpec(offset, sections);
    marked := MarkLinks(hrefs, currentId);
  }
}
