/**
 * The menu reordering script: the (href, text) pairs found in the menu are
 * put back with About, Our Team and Contact moved to the end, and one HTML
 * line is generated per pair. Reading the page and locating the menu with
 * regular expressions are not part of this model.
 */
module Menu {
  import opened Wrappers
  import opened Text

  datatype MenuItem = MenuItem(href: string, text: string)

  const AboutHref: string := "about.html"
  const TeamHref: string := "our_team.html"
  const ContactHref: string := "contact.html"

  predicate IsSpecial(href: string)
  {
    href == AboutHref || href == TeamHref || href == ContactHref
  }

  // ---------------------------------------------------------------------
  // Reference definitions.

  /** The items that are not special, in their order. */
  function Others(items: seq<MenuItem>): seq<MenuItem>
  {
    if items == [] then []
    else
      var rest := Others(items[..|items| - 1]);
      if IsSpecial(items[|items| - 1].href) then rest else rest + [items[|items| - 1]]
  }

  /** The last item with the given href. */
  function LastWith(items: seq<MenuItem>, href: string): Option<MenuItem>
  {
    if items == [] then None
    else if items[|items| - 1].href == href then Some(items[|items| - 1])
    else LastWith(items[..|items| - 1], href)
  }

  function Wrap(items: seq<MenuItem>): (r: seq<Option<MenuItem>>)
    ensures |r| == |items| && forall i :: 0 <= i < |items| ==> r[i] == Some(items[i])
  {
    if items == [] then [] else Wrap(items[..|items| - 1]) + [Some(items[|items| - 1])]
  }

  /** The reordered list; a missing About or Our Team item shows up as
      None when Contact is there. */
  function Reordered(items: seq<MenuItem>): seq<Option<MenuItem>>
  {
    Wrap(Others(items)) +
      if LastWith(items, ContactHref).Some? then
        [LastWith(items, AboutHref), LastWith(items, TeamHref), LastWith(items, ContactHref)]
      else []
  }

  // ---------------------------------------------------------------------
  // The two loops.

  /** The reordering loop. */
  method ReorderItems(items: seq<MenuItem>) returns (ordered: seq<Option<MenuItem>>)
    ensures ordered == Reordered(items)
  {
    var others: seq<MenuItem> := [];
    var about: Option<MenuItem> := None;
    var team: Option<MenuItem> := None;
    var contact: Option<MenuItem> := None;
    for i := 0 to |items|
      invariant others == Others(items[..i])
      invariant about == LastWith(items[..i], AboutHref)
      invariant team == LastWith(items[..i], TeamHref)
      invariant contact == LastWith(items[..i], ContactHref)
    {
      assert items[..i + 1][..i] == items[..i];
      var it := items[i];
      if it.href == AboutHref {
        about := Some(it);
      } else if it.href == TeamHref {
        team := Some(it);
      } else if it.href == ContactHref {
        contact := Some(it);
      } else {
        others := others + [it];
      }
    }
    assert items[..|items|] == items;
    ordered := Wrap(others);
    if contact.Some? {
      ordered := ordered + [about, team, contact];
    }
  }

  /** The markup around the href and the text of a generated line. */
  const LineOpen: string := "                    <li><a href=\""
  const LineMid: string := "\">"
  const LineClose: string := "</a></li>"

  /** One generated line: twenty spaces, the link item, a newline. */
  function Line(item: MenuItem): string
  {
    LineOpen + item.href + LineMid + item.text + LineClose + "\n"
  }

  /** The text of the lines, or None when an entry is None (unpacking it
      raises). */
  function Render(ordered: seq<Option<MenuItem>>): Option<string>
  {
    if ordered == [] then Some("")
    else
      match Render(ordered[..|ordered| - 1])
      case None => None
      case Some(prefix) =>
        match ordered[|ordered| - 1]
        case None => None
        case Some(item) => Some(prefix + Line(item))
  }

  /** The line generation loop. */
  method MenuLines(ordered: seq<Option<MenuItem>>) returns (r: Option<string>)
    ensures r == Render(ordered)
  {
    var text := "";
    for i := 0 to |ordered|
      invariant Render(ordered[..i]) == Some(text)
    {
      assert ordered[..i + 1][..i] == ordered[..i];
      match ordered[i]
      case None =>
        RenderStaysNone(ordered, i + 1);
        assert ordered[..|ordered|] == ordered;
        return None;
      case Some(item) =>
        text := text + Line(item);
    }
    assert ordered[..|ordered|] == ordered;
    r := Some(text);
  }

  /** Once an entry fails, every longer prefix fails. */
  lemma {:induction false} RenderStaysNone(ordered: seq<Option<MenuItem>>, k: nat)
    requires 0 < k <= |ordered| && Render(ordered[..k]) == None
    ensures Render(ordered) == None
    decreases |ordered| - k
  {
    if k < |ordered| {
      assert ordered[..k + 1][..k] == ordered[..k];
      RenderStaysNone(ordered, k + 1);
    } else {
      assert ordered[..k] == ordered;
    }
  }

  // ---------------------------------------------------------------------
  // What the reordering promises.

  /** The plain items keep their relative order: Others is exactly the
      non-special items, each of them from the input. */
  lemma {:induction false} OthersSpec(items: seq<MenuItem>)
    ensures forall x :: x in Others(items) ==> x in items && !IsSpecial(x.href)
    ensures forall x :: x in items && !IsSpecial(x.href) ==> x in Others(items)
    ensures |Others(items)| <= |items|
    decreases |items|
  {
    if items != [] {
      var p := items[..|items| - 1];
      OthersSpec(p);
      assert items == p + [items[|items| - 1]];
    }
  }

  /** Others keeps the order of the input: it distributes over a split. */
  lemma {:induction false} OthersAppend(a: seq<MenuItem>, b: seq<MenuItem>)
    ensures Others(a + b) == Others(a) + Others(b)
    decreases |b|
  {
    if b == [] {
      assert a + b == a;
    } else {
      var q := b[..|b| - 1];
      assert (a + b)[..|a + b| - 1] == a + q;
      OthersAppend(a, q);
    }
  }

  /** No item with the href gives None. */
  lemma {:induction false} LastWithNone(items: seq<MenuItem>, href: string)
    ensures LastWith(items, href).None? <==> forall i :: 0 <= i < |items| ==> items[i].href != href
    decreases |items|
  {
    if items != [] {
      var p := items[..|items| - 1];
      LastWithNone(p, href);
      assert forall i :: 0 <= i < |p| ==> p[i] == items[i];
    }
  }

  /** Otherwise the result is an item with the href and no later item has
      it. */
  lemma {:induction false} LastWithSome(items: seq<MenuItem>, href: string)
    requires LastWith(items, href).Some?
    ensures exists i :: 0 <= i < |items| && items[i] == LastWith(items, href).value && items[i].href == href
              && forall j :: i < j < |items| ==> items[j].href != href
    decreases |items|
  {
    var last := |items| - 1;
    if items[last].href == href {
      assert items[last] == LastWith(items, href).value;
    } else {
      var p := items[..last];
      LastWithSome(p, href);
      var i :| 0 <= i < |p| && p[i] == LastWith(p, href).value && p[i].href == href
              && forall j :: i < j < |p| ==> p[j].href != href;
      assert items[i] == p[i];
      assert forall j :: i < j < |items| ==> items[j].href != href by {
        assert forall j :: i < j < |p| ==> items[j] == p[j];
      }
    }
  }

  /** For a repeated href only the last occurrence survives. */
  lemma LastWithSpec(items: seq<MenuItem>, href: string)
    ensures LastWith(items, href).None? <==> forall i :: 0 <= i < |items| ==> items[i].href != href
    ensures LastWith(items, href).Some? ==>
              exists i :: 0 <= i < |items| && items[i] == LastWith(items, href).value && items[i].href == href
                && forall j :: i < j < |items| ==> items[j].href != href
  {
    LastWithNone(items, href);
    if LastWith(items, href).Some? {
      LastWithSome(items, href);
    }
  }

  /** With a Contact item the list ends with About, Our Team and Contact,
      after the plain items; without one, About and Our Team are gone. */
  lemma ReorderedShape(items: seq<MenuItem>)
    ensures var r := Reordered(items); var o := Others(items);
      && (LastWith(items, ContactHref).Some? ==>
            && |r| == |o| + 3
            && r[|o|] == LastWith(items, AboutHref)
            && r[|o| + 1] == LastWith(items, TeamHref)
            && r[|o| + 2] == LastWith(items, ContactHref))
      && (LastWith(items, ContactHref).None? ==>
            && |r| == |o|
            && forall k :: 0 <= k < |r| ==> r[k].Some? && !IsSpecial(r[k].value.href))
  {
    var o := Others(items);
    OthersSpec(items);
    if LastWith(items, ContactHref).None? {
      forall k | 0 <= k < |o| ensures !IsSpecial(o[k].href) {
        assert o[k] in o;
      }
    }
  }

  /** Rendering succeeds iff no entry is None, and then there is one line
      per entry, so the text has one newline per entry when no href or text
      holds a newline. */
  lemma {:induction false} RenderSpec(ordered: seq<Option<MenuItem>>)
    ensures Render(ordered).Some? <==> forall k :: 0 <= k < |ordered| ==> ordered[k].Some?
    ensures Render(ordered).Some? && (forall k :: 0 <= k < |ordered| ==>
              Count(ordered[k].value.href, '\n') == 0 && Count(ordered[k].value.text, '\n') == 0) ==>
              Count(Render(ordered).value, '\n') == |ordered|
    decreases |ordered|
  {
    if ordered != [] {
      var p := ordered[..|ordered| - 1];
      RenderSpec(p);
      assert forall k :: 0 <= k < |p| ==> p[k] == ordered[k];
      var last := ordered[|ordered| - 1];
      if Render(ordered).Some? {
        var item := last.value;
        var prefix := Render(p).value;
        if (forall k :: 0 <= k < |ordered| ==>
              Count(ordered[k].value.href, '\n') == 0 && Count(ordered[k].value.text, '\n') == 0) {
          LineHasOneNewline(item);
          CountAppend(prefix, Line(item), '\n');
        }
      }
    }
  }

  lemma LineHasOneNewline(item: MenuItem)
    requires Count(item.href, '\n') == 0 && Count(item.text, '\n') == 0
    ensures Count(Line(item), '\n') == 1
  {
    MarkupHasNoNewline();
    NewlineCountsOne();
    CountOfSix(LineOpen, item.href, LineMid, item.text, LineClose, "\n");
  }

  lemma NewlineCountsOne()
    ensures Count("\n", '\n') == 1
  {
    assert "\n"[1..] == [];
  }

  lemma CountOfSix(a: string, b: string, c: string, d: string, e: string, f: string)
    ensures Count(a + b + c + d + e + f, '\n') ==
              Count(a, '\n') + Count(b, '\n') + Count(c, '\n') + Count(d, '\n') + Count(e, '\n') + Count(f, '\n')
  {
    CountAppend(a, b, '\n');
    CountAppend(a + b, c, '\n');
    CountAppend(a + b + c, d, '\n');
    CountAppend(a + b + c + d, e, '\n');
    CountAppend(a + b + c + d + e, f, '\n');
  }

  lemma MarkupHasNoNewline()
    ensures Count(LineOpen, '\n') == 0 && Count(LineMid, '\n') == 0 && Count(LineClose, '\n') == 0
  {
    OpenHasNoNewline();
    MidHasNoNewline();
    CloseHasNoNewline();
  }

  lemma MidHasNoNewline()
    ensures Count(LineMid, '\n') == 0
  {
    forall i | 0 <= i < |LineMid| ensures LineMid[i] != '\n' {
    }
    CountAbsent(LineMid, '\n');
  }

  lemma CloseHasNoNewline()
    ensures Count(LineClose, '\n') == 0
  {
    forall i | 0 <= i < |LineClose| ensures LineClose[i] != '\n' {
    }
    CountAbsent(LineClose, '\n');
  }

  lemma OpenHasNoNewline()
    ensures Count(LineOpen, '\n') == 0
  {
    forall i | 0 <= i < |LineOpen| ensures LineOpen[i] != '\n' {
    }
    CountAbsent(LineOpen, '\n');
  }

  lemma {:induction false} CountAppend(a: string, b: string, c: char)
    ensures Count(a + b, c) == Count(a, c) + Count(b, c)
    decreases |a|
  {
    if a == [] {
      assert a + b == b;
    } else {
      assert (a + b)[1..] == a[1..] + b;
      CountAppend(a[1..], b, c);
    }
  }

  /** A Contact item without an About item makes the generation fail, as
      the unpacking of None does. */
  lemma MissingAboutFails(items: seq<MenuItem>)
    requires LastWith(items, ContactHref).Some? && LastWith(items, AboutHref).None?
    ensures Render(Reordered(items)) == None
  {
    var r := Reordered(items);
    ReorderedShape(items);
    RenderSpec(r);
  }
}
