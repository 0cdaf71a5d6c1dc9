/** The export of a whole draft (`getProcessedHtml`), described piece by piece:
    the editor's HTML is read as plain runs and image markers, and the export is
    the same sequence with each filled marker swapped for its slot markup. This
    is an independent description of the sequential `replaceAll` fold, and the
    lemmas here prove the two agree for drafts with any number of markers. */
module DraftExport {
  import opened Wrappers
  import opened Domain
  import Text
  import Seqs
  import Markers
  import Workflow

  /** A run of a draft's HTML: plain text, or one image marker. */
  datatype Piece = Plain(text: string) | Slot(marker: string)

  function PieceText(p: Piece): string {
    match p
    case Plain(t) => t
    case Slot(m) => m
  }

  /** The HTML the pieces spell out. */
  function Render(ps: seq<Piece>): string
    decreases |ps|
  {
    if |ps| == 0 then "" else PieceText(ps[0]) + Render(ps[1..])
  }

  /** Plain runs hold no `[`, so no marker starts in them; slots are whole markers. */
  predicate PieceOk(p: Piece) {
    match p
    case Plain(t) => '[' !in t
    case Slot(m) => Markers.IsMarker(m)
  }

  predicate WellFormed(ps: seq<Piece>) {
    forall k :: 0 <= k < |ps| ==> PieceOk(ps[k])
  }

  // ----- the reference: export piece by piece -----

  /** What the export makes of one piece: a marker that is the j-th distinct
      marker of the text, with a non-empty j-th prompt, becomes that prompt's
      slot markup; everything else stays. */
  function ExportPiece(p: Piece, markers: seq<string>, prompts: seq<string>,
                       images: seq<GeneratedImage>): Piece {
    match p
    case Plain(_) => p
    case Slot(m) =>
      var j := Seqs.IndexOf(markers, m);
      if 0 <= j < |prompts| && prompts[j] != "" then Plain(Workflow.SlotMarkup(prompts[j], images))
      else p
  }

  function ExportPieces(ps: seq<Piece>, markers: seq<string>, prompts: seq<string>,
                        images: seq<GeneratedImage>): (r: seq<Piece>)
    ensures |r| == |ps|
    ensures forall k :: 0 <= k < |ps| ==> r[k] == ExportPiece(ps[k], markers, prompts, images)
    decreases |ps|
  {
    if |ps| == 0 then []
    else [ExportPiece(ps[0], markers, prompts, images)] + ExportPieces(ps[1..], markers, prompts, images)
  }

  // ----- one replaceAll, piece by piece -----

  /** `replaceAll(pat, rep)` on one piece: the slot holding `pat` becomes `rep`. */
  function FillPiece(p: Piece, pat: string, rep: string): Piece {
    if p == Slot(pat) then Plain(rep) else p
  }

  function FillPieces(ps: seq<Piece>, pat: string, rep: string): (r: seq<Piece>)
    ensures |r| == |ps|
    ensures forall k :: 0 <= k < |ps| ==> r[k] == FillPiece(ps[k], pat, rep)
    decreases |ps|
  {
    if |ps| == 0 then [] else [FillPiece(ps[0], pat, rep)] + FillPieces(ps[1..], pat, rep)
  }

  /** A marker begins with `[[`. */
  lemma MarkerOpensWithBrackets(m: string)
    requires Markers.IsMarker(m)
    ensures m[0] == '[' && m[1] == '['
  {
    assert m[..|Markers.MarkerOpen|] == Markers.MarkerOpen;
    assert m[0] == Markers.MarkerOpen[0] && m[1] == Markers.MarkerOpen[1];
  }

  /** No marker starts inside a plain run. */
  lemma NoMarkerInPlain(x: string, y: string, pat: string)
    requires '[' !in x && Markers.IsMarker(pat)
    ensures forall j :: 0 <= j < |x| ==> !Text.OccursAt(x + y, pat, j)
  {
    MarkerOpensWithBrackets(pat);
    forall j | 0 <= j < |x| ensures !Text.OccursAt(x + y, pat, j) {
      assert (x + y)[j] == x[j] != '[';
    }
  }

  /** No marker other than `m` itself starts inside the marker `m`. */
  lemma NoOtherMarkerInSlot(m: string, y: string, pat: string)
    requires Markers.IsMarker(m) && Markers.IsMarker(pat) && m != pat
    ensures forall j :: 0 <= j < |m| ==> !Text.OccursAt(m + y, pat, j)
  {
    var s := m + y;
    assert s[..|m|] == m;
    forall j | 0 <= j < |m| ensures !Text.OccursAt(s, pat, j) {
      Markers.MarkerWithinMarker(s, |m|, pat, j);
    }
  }

  /** `replaceAll` of one marker on a draft replaces exactly the slots holding it. */
  lemma {:induction false} ReplacePieces(ps: seq<Piece>, pat: string, rep: string)
    requires WellFormed(ps) && Markers.IsMarker(pat) && '[' !in rep
    ensures Text.ReplaceAll(Render(ps), pat, rep) == Render(FillPieces(ps, pat, rep))
    ensures WellFormed(FillPieces(ps, pat, rep))
    decreases |ps|
  {
    var f := FillPieces(ps, pat, rep);
    if |ps| == 0 {
      assert !Text.Contains("", pat);
      Text.ReplaceAllAbsent("", pat, rep);
    } else {
      var y := Render(ps[1..]);
      assert WellFormed(ps[1..]) by {
        forall k | 0 <= k < |ps[1..]| ensures PieceOk(ps[1..][k]) {
          assert ps[1..][k] == ps[k + 1];
        }
      }
      ReplacePieces(ps[1..], pat, rep);
      assert f[1..] == FillPieces(ps[1..], pat, rep);
      assert PieceOk(ps[0]);
      match ps[0]
      case Plain(x) =>
        NoMarkerInPlain(x, y, pat);
        Text.ReplaceSkipsPrefix(x, y, pat, rep);
      case Slot(m) =>
        if m == pat {
          Text.ReplaceLeading(y, pat, rep);
        } else {
          NoOtherMarkerInSlot(m, y, pat);
          Text.ReplaceSkipsPrefix(m, y, pat, rep);
        }
    }
  }

  // ----- the fold of replacements, piece by piece -----

  /** Every pattern is a marker and no replacement holds `[`. */
  predicate MarkerSubstitutions(subs: seq<(string, string)>) {
    forall k :: 0 <= k < |subs| ==> Markers.IsMarker(subs[k].0) && '[' !in subs[k].1
  }

  /** The piece the fold leaves: a slot takes the replacement of the first pair
      naming its marker. */
  function Resolve(p: Piece, subs: seq<(string, string)>): (r: Piece)
    ensures p.Plain? ==> r == p
    decreases |subs|
  {
    if |subs| == 0 then p
    else if p == Slot(subs[0].0) then Plain(subs[0].1)
    else Resolve(p, subs[1..])
  }

  function ResolvePieces(ps: seq<Piece>, subs: seq<(string, string)>): (r: seq<Piece>)
    ensures |r| == |ps|
    ensures forall k :: 0 <= k < |ps| ==> r[k] == Resolve(ps[k], subs)
    decreases |ps|
  {
    if |ps| == 0 then [] else [Resolve(ps[0], subs)] + ResolvePieces(ps[1..], subs)
  }

  /** Filling the first pair's slots, then resolving with the rest, is resolving
      with all of them. */
  lemma FillThenResolve(ps: seq<Piece>, subs: seq<(string, string)>)
    requires 0 < |subs|
    ensures ResolvePieces(FillPieces(ps, subs[0].0, subs[0].1), subs[1..]) == ResolvePieces(ps, subs)
  {
    var a := ResolvePieces(FillPieces(ps, subs[0].0, subs[0].1), subs[1..]);
    var b := ResolvePieces(ps, subs);
    forall k | 0 <= k < |ps| ensures a[k] == b[k] {
      var p := ps[k];
      if p != Slot(subs[0].0) {
        assert FillPiece(p, subs[0].0, subs[0].1) == p;
      }
    }
  }

  /** The sequential fold of `replaceAll`s over a draft resolves every slot. */
  lemma {:induction false} ApplyAllPieces(ps: seq<Piece>, subs: seq<(string, string)>)
    requires WellFormed(ps) && MarkerSubstitutions(subs)
    requires Workflow.NonEmptyPatterns(subs)
    ensures Workflow.ApplyAll(Render(ps), subs) == Render(ResolvePieces(ps, subs))
    decreases |subs|
  {
    if |subs| == 0 {
      assert ResolvePieces(ps, subs) == ps;
    } else {
      var pat, rep := subs[0].0, subs[0].1;
      ReplacePieces(ps, pat, rep);
      var rest := subs[1..];
      assert MarkerSubstitutions(rest) && Workflow.NonEmptyPatterns(rest) by {
        forall k | 0 <= k < |rest| ensures Markers.IsMarker(rest[k].0) && '[' !in rest[k].1 && 0 < |rest[k].0| {
          assert rest[k] == subs[k + 1];
        }
      }
      ApplyAllPieces(FillPieces(ps, pat, rep), rest);
      FillThenResolve(ps, subs);
    }
  }

  // ----- the export's replacements resolve as the reference says -----

  /** When every pair naming `m` carries `v`, the slot of `m` resolves to `v` if
      some pair names it, and stays otherwise. */
  lemma {:induction false} ResolveUniform(m: string, v: string, subs: seq<(string, string)>)
    requires forall k :: 0 <= k < |subs| && subs[k].0 == m ==> subs[k].1 == v
    ensures (exists k :: 0 <= k < |subs| && subs[k].0 == m) ==> Resolve(Slot(m), subs) == Plain(v)
    ensures (forall k :: 0 <= k < |subs| ==> subs[k].0 != m) ==> Resolve(Slot(m), subs) == Slot(m)
    decreases |subs|
  {
    if 0 < |subs| {
      var rest := subs[1..];
      forall k | 0 <= k < |rest| && rest[k].0 == m ensures rest[k].1 == v {
        assert rest[k] == subs[k + 1];
      }
      ResolveUniform(m, v, rest);
      if subs[0].0 != m {
        if exists k :: 0 <= k < |subs| && subs[k].0 == m {
          var k :| 0 <= k < |subs| && subs[k].0 == m;
          assert rest[k - 1] == subs[k];
        }
      }
    }
  }

  /** In a list without duplicates, the position holding `m` is where `indexOf` finds it. */
  lemma IndexOfUnique(markers: seq<string>, m: string, i: nat)
    requires Markers.NoDuplicates(markers) && i < |markers|
    ensures markers[i] == m ==> Seqs.IndexOf(markers, m) == i
  {
  }

  /** Each replacement of the export is the slot markup of one of the prompts. */
  lemma SubstitutionTexts(markers: seq<string>, prompts: seq<string>, images: seq<GeneratedImage>)
    ensures var subs := Workflow.Substitutions(markers, prompts, images);
            forall k :: 0 <= k < |subs| ==>
              exists j :: 0 <= j < |prompts| && subs[k].1 == Workflow.SlotMarkup(prompts[j], images)
  {
    var slot := Workflow.SlotFor(images);
    var subs := Workflow.Substitutions(markers, prompts, images);
    Workflow.SubstitutionsSound(markers, prompts, slot, 0);
    forall k | 0 <= k < |subs|
      ensures exists j :: 0 <= j < |prompts| && subs[k].1 == Workflow.SlotMarkup(prompts[j], images)
    {
      assert Workflow.FilledFrom(markers, prompts, slot, 0, subs[k]);
      var i :| 0 <= i < |markers| && Workflow.Fills(markers, prompts, slot, i, subs[k]);
      assert subs[k].1 == Workflow.SlotMarkup(prompts[i], images);
    }
  }

  /** The export's replacements resolve each slot as the reference does: the
      j-th distinct marker takes the markup of the j-th prompt when that prompt
      is non-empty, and stays otherwise. */
  lemma ExportResolves(markers: seq<string>, prompts: seq<string>, images: seq<GeneratedImage>, m: string)
    requires Markers.NoDuplicates(markers)
    ensures Resolve(Slot(m), Workflow.Substitutions(markers, prompts, images))
            == ExportPiece(Slot(m), markers, prompts, images)
  {
    var slot := Workflow.SlotFor(images);
    var subs := Workflow.Substitutions(markers, prompts, images);
    var j := Seqs.IndexOf(markers, m);
    var v := if 0 <= j < |prompts| then Workflow.SlotMarkup(prompts[j], images) else "";
    Workflow.SubstitutionsSound(markers, prompts, slot, 0);
    forall k | 0 <= k < |subs| && subs[k].0 == m ensures subs[k].1 == v {
      assert Workflow.FilledFrom(markers, prompts, slot, 0, subs[k]);
      var i :| 0 <= i < |markers| && Workflow.Fills(markers, prompts, slot, i, subs[k]);
      IndexOfUnique(markers, m, i);
    }
    ResolveUniform(m, v, subs);
    if 0 <= j < |prompts| && prompts[j] != "" {
      Workflow.SubstitutionsComplete(markers, prompts, slot, 0);
      assert (markers[j], slot(prompts[j])) in subs;
      var k :| 0 <= k < |subs| && subs[k] == (markers[j], slot(prompts[j]));
      assert subs[k].0 == m;
    } else {
      forall k | 0 <= k < |subs| ensures subs[k].0 != m {
        assert Workflow.FilledFrom(markers, prompts, slot, 0, subs[k]);
        var i :| 0 <= i < |markers| && Workflow.Fills(markers, prompts, slot, i, subs[k]);
        IndexOfUnique(markers, m, i);
      }
    }
  }

  /** An empty draft is all empty plain runs, which the export keeps. */
  lemma {:induction false} EmptyDraftKept(ps: seq<Piece>, markers: seq<string>, prompts: seq<string>,
                                          images: seq<GeneratedImage>)
    requires WellFormed(ps) && Render(ps) == ""
    ensures Render(ExportPieces(ps, markers, prompts, images)) == ""
    decreases |ps|
  {
    if 0 < |ps| {
      assert PieceOk(ps[0]) && PieceText(ps[0]) == "";
      assert WellFormed(ps[1..]) by {
        forall k | 0 <= k < |ps[1..]| ensures PieceOk(ps[1..][k]) {
          assert ps[1..][k] == ps[k + 1];
        }
      }
      EmptyDraftKept(ps[1..], markers, prompts, images);
      assert ExportPieces(ps, markers, prompts, images)[1..] == ExportPieces(ps[1..], markers, prompts, images);
    }
  }

  /** `getProcessedHtml` on a draft whose slot markups hold no `[`: the export is
      the draft with each filled marker swapped for its slot markup, whatever the
      number of markers; without images the HTML comes back as it is. */
  lemma ProcessedDraft(post: BlogPost, ps: seq<Piece>, text: string, images: seq<GeneratedImage>)
    requires WellFormed(ps)
    requires forall j :: 0 <= j < |post.suggestedImagePrompts| ==>
               '[' !in Workflow.SlotMarkup(post.suggestedImagePrompts[j], images)
    ensures Workflow.ProcessedHtml(Some(post), Render(ps), text, images)
            == if |images| == 0 then Render(ps)
               else Render(ExportPieces(ps, Markers.DistinctMarkers(text), post.suggestedImagePrompts, images))
  {
    var prompts := post.suggestedImagePrompts;
    var markers := Markers.DistinctMarkers(text);
    if Render(ps) == "" {
      EmptyDraftKept(ps, markers, prompts, images);
    } else if |images| == 0 {
    } else if |prompts| == 0 {
      assert ExportPieces(ps, markers, prompts, images) == ps;
    } else {
      var subs := Workflow.ExportSubstitutions(text, prompts, images);
      assert subs == Workflow.Substitutions(markers, prompts, images);
      SubstitutionTexts(markers, prompts, images);
      ApplyAllPieces(ps, subs);
      ResolveAsExport(ps, markers, prompts, images);
    }
  }

  /** Resolving with the export's replacements is exporting piece by piece. */
  lemma ResolveAsExport(ps: seq<Piece>, markers: seq<string>, prompts: seq<string>, images: seq<GeneratedImage>)
    requires Markers.NoDuplicates(markers)
    ensures ResolvePieces(ps, Workflow.Substitutions(markers, prompts, images))
            == ExportPieces(ps, markers, prompts, images)
  {
    var subs := Workflow.Substitutions(markers, prompts, images);
    forall k | 0 <= k < |ps|
      ensures Resolve(ps[k], subs) == ExportPiece(ps[k], markers, prompts, images)
    {
      if ps[k].Slot? {
        ExportResolves(markers, prompts, images, ps[k].marker);
      }
    }
  }

  /** The same draft exported as written: when no slot markup holds `$` either,
      JavaScript's `replaceAll` gives the same export. */
  lemma ProcessedDraftAsWritten(post: BlogPost, ps: seq<Piece>, text: string, images: seq<GeneratedImage>)
    requires WellFormed(ps)
    requires forall j :: 0 <= j < |post.suggestedImagePrompts| ==>
               var x := Workflow.SlotMarkup(post.suggestedImagePrompts[j], images);
               '[' !in x && '$' !in x
    ensures Workflow.ProcessedHtmlAsWritten(Some(post), Render(ps), text, images)
            == if |images| == 0 then Render(ps)
               else Render(ExportPieces(ps, Markers.DistinctMarkers(text), post.suggestedImagePrompts, images))
  {
    var prompts := post.suggestedImagePrompts;
    ProcessedDraft(post, ps, text, images);
    if Render(ps) != "" && 0 < |images| && 0 < |prompts| {
      var subs := Workflow.ExportSubstitutions(text, prompts, images);
      SubstitutionTexts(Markers.DistinctMarkers(text), prompts, images);
      Workflow.NoDollarAgrees(Render(ps), subs);
    }
  }

  /** A character in none of the fixed texts of the slot markup, the prompt or
      any image's data URL is in none of the slot markups. */
  lemma SlotMarkupLacks(c: char, p: string, images: seq<GeneratedImage>)
    requires c in "[$" && c !in p
    requires forall i :: 0 <= i < |images| ==> c !in images[i].dataUrl
    ensures c !in Workflow.SlotMarkup(p, images)
  {
    assert c !in "<figure><img src=\"" && c !in "\" alt=\"" && c !in "\" /><figcaption>"
      && c !in "</figcaption></figure>";
    assert c !in Workflow.PlaceholderOpen && c !in Workflow.PlaceholderClose by {
      assert c !in "<div>" && c !in "Image " && c !in "Placeholder: " && c !in "</div>";
    }
  }
}
