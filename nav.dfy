/**
 * Active navigation highlighting, `updateActiveNav` in assets/js/main.js
 * (lines 178-192).
 *
 * Sections are visited in document order. A section whose vertical interval
 * [top, top + height) holds `scrollY + 100` clears the active flag of every
 * navigation link and then sets the flag of its own link, if the page has one.
 * The flags live in an array indexed like the page's `.nav-menu a` links.
 */
module ActiveNav {
  import opened Wrappers

  /** Added to the scroll position before the sections are compared with it. */
  const NavOffset := 100

  /** A `section[id]`: its offset, its height, and the index of its navigation link (None when no link points to it). */
  datatype Section = Section(top: int, height: int, link: Option<nat>)

  predicate Contains(s: Section, pos: int)
  {
    s.top <= pos < s.top + s.height
  }

  /** The flags after the links are all cleared and `link`, if present, is set. */
  function Highlight(n: nat, link: Option<nat>): seq<bool>
  {
    seq(n, j => link == Some(j))
  }

  /** One iteration of the `forEach` over the sections. */
  function Visit(flags: seq<bool>, s: Section, pos: int): seq<bool>
  {
    if Contains(s, pos) then Highlight(|flags|, s.link) else flags
  }

  /** The flags after the loop has visited `sections` in order. */
  function Scan(flags: seq<bool>, sections: seq<Section>, pos: int): seq<bool>
    decreases |sections|
  {
    if sections == [] then flags
    else Visit(Scan(flags, sections[..|sections| - 1], pos), sections[|sections| - 1], pos)
  }

  /** The index of the last section in document order that holds `pos`, if any. */
  function LastContaining(sections: seq<Section>, pos: int): (r: Option<nat>)
    ensures r.Some? ==> r.value < |sections| && Contains(sections[r.value], pos)
    ensures r.Some? ==> forall j :: r.value < j < |sections| ==> !Contains(sections[j], pos)
    ensures r.None? ==> forall j :: 0 <= j < |sections| ==> !Contains(sections[j], pos)
    decreases |sections|
  {
    if sections == [] then None
    else if Contains(sections[|sections| - 1], pos) then Some(|sections| - 1)
    else LastContaining(sections[..|sections| - 1], pos)
  }

  /** The flags the loop leaves: the last matching section decides; with no match nothing changes. */
  function Selected(flags: seq<bool>, sections: seq<Section>, pos: int): seq<bool>
  {
    match LastContaining(sections, pos)
    case None => flags
    case Some(k) => Highlight(|flags|, sections[k].link)
  }

  /** Scanning the sections one by one is selecting the last one that matches. */
  lemma {:induction false} ScanSelectsLast(flags: seq<bool>, sections: seq<Section>, pos: int)
    ensures Scan(flags, sections, pos) == Selected(flags, sections, pos)
    decreases |sections|
  {
    if sections != [] {
      var init := sections[..|sections| - 1];
      ScanSelectsLast(flags, init, pos);
      var prev := Scan(flags, init, pos);
      assert |prev| == |flags| by {
        ScanKeepsLength(flags, init, pos);
      }
    }
  }

  lemma {:induction false} ScanKeepsLength(flags: seq<bool>, sections: seq<Section>, pos: int)
    ensures |Scan(flags, sections, pos)| == |flags|
    decreases |sections|
  {
    if sections != [] {
      ScanKeepsLength(flags, sections[..|sections| - 1], pos);
    }
  }

  /** `navItems.forEach(item => item.classList.remove('active'))`. */
  method ClearActive(active: array<bool>)
    modifies active
    ensures forall j :: 0 <= j < active.Length ==> !active[j]
  {
    for i := 0 to active.Length
      invariant forall j :: 0 <= j < i ==> !active[j]
    {
      active[i] := false;
    }
  }

  /**
   * `updateActiveNav`: afterwards only the link of the last section holding
   * `scrollY + 100` is active; when no section holds it the flags are as they were.
   */
  method UpdateActiveNav(sections: seq<Section>, active: array<bool>, scrollY: int)
    requires forall i :: 0 <= i < |sections| && sections[i].link.Some? ==> sections[i].link.value < active.Length
    modifies active
    ensures active[..] == Scan(old(active[..]), sections, scrollY + NavOffset)
    ensures LastContaining(sections, scrollY + NavOffset).None? ==> active[..] == old(active[..])
    ensures var k := LastContaining(sections, scrollY + NavOffset);
      k.Some? ==> forall j :: 0 <= j < active.Length ==> (active[j] <==> sections[k.value].link == Some(j))
  {
    var scrollPos := scrollY + NavOffset;
    for i := 0 to |sections|
      invariant active[..] == Scan(old(active[..]), sections[..i], scrollPos)
    {
      var section := sections[i];
      assert sections[..i + 1][..i] == sections[..i];
      if scrollPos >= section.top && scrollPos < section.top + section.height {
        ClearActive(active);
        if section.link.Some? {
          active[section.link.value] := true;
        }
        assert active[..] == Highlight(active.Length, section.link);
      }
    }
    assert sections[..|sections|] == sections;
    ScanSelectsLast(old(active[..]), sections, scrollPos);
  }

  /**
   * The two sections [0, 100) and [100, 300): because of the 100-pixel offset,
   * scroll positions 50 and 150 both make the second section's link active.
   */
  lemma OffsetExample(active: seq<bool>)
    requires |active| == 2
    ensures var secs := [Section(0, 100, Some(0)), Section(100, 200, Some(1))];
      && Selected(active, secs, 50 + NavOffset) == [false, true]
      && Selected(active, secs, 150 + NavOffset) == [false, true]
      && Selected(active, secs, -50 + NavOffset) == [true, false]
      && Selected(active, secs, 250 + NavOffset) == active
  {
  }
}
