/** The image panel (`components/ImagePanel.tsx`): labels and download names of
    gallery images, the "save all" order and filter, the progress counter, the
    prompt export text, and which controls the panel shows. Positions in the
    prompt list are found with `indexOf`, so an image belongs to the first list
    entry with its prompt text. */
module Gallery {
  import opened Wrappers
  import opened Domain
  import Text
  import Seqs
  import Workflow

  // ----- labels -----

  const HeroLabel: string := "Hero Image"
  const NumberedLabelPrefix: string := "Image #"
  const CustomLabel: string := "Custom Image"

  /** The badge of list position `i` in the prompt list: the first is the hero image,
      the others are numbered from 2. */
  function SlotLabel(i: nat): string {
    if i == 0 then HeroLabel else NumberedLabelPrefix + Text.NatToString(i + 1)
  }

  /** The badge of a gallery image, from the list position of its prompt. */
  function ImageLabel(prompts: seq<string>, prompt: string): (r: string)
    ensures prompt in prompts ==> r == SlotLabel(Seqs.IndexOf(prompts, prompt))
    ensures prompt !in prompts ==> r == CustomLabel
  {
    var idx := Seqs.IndexOf(prompts, prompt);
    if idx == 0 then HeroLabel
    else if idx > 0 then NumberedLabelPrefix + Text.NatToString(idx + 1)
    else CustomLabel
  }

  /** Reads a badge back: the list position it names, -1 for a custom image. */
  function LabelPosition(badge: string): Option<int> {
    if badge == HeroLabel then Some(0)
    else if badge == CustomLabel then Some(-1)
    else if |NumberedLabelPrefix| < |badge| && Text.IsPrefix(NumberedLabelPrefix, badge)
            && Text.AllDigits(badge[|NumberedLabelPrefix|..]) then
      Some(Text.ParseNat(badge[|NumberedLabelPrefix|..]) - 1)
    else None
  }

  /** A badge names exactly the list position `indexOf` finds for the image's prompt. */
  lemma LabelRoundTrip(prompts: seq<string>, prompt: string)
    ensures LabelPosition(ImageLabel(prompts, prompt)) == Some(Seqs.IndexOf(prompts, prompt))
  {
    var idx := Seqs.IndexOf(prompts, prompt);
    if idx > 0 {
      var digits := Text.NatToString(idx + 1);
      var badge := NumberedLabelPrefix + digits;
      assert badge[0] == 'I' && HeroLabel[0] == 'H' && CustomLabel[0] == 'C';
      assert badge[|NumberedLabelPrefix|..] == digits;
      assert Text.IsPrefix(NumberedLabelPrefix, badge);
      Text.ParseNatToString(idx + 1);
    }
  }

  /** Images of two different listed prompts never share a badge. */
  lemma LabelsDistinguishPrompts(prompts: seq<string>, p: string, q: string)
    requires p in prompts && q in prompts && p != q
    ensures ImageLabel(prompts, p) != ImageLabel(prompts, q)
  {
    LabelRoundTrip(prompts, p);
    LabelRoundTrip(prompts, q);
    assert Seqs.IndexOf(prompts, p) != Seqs.IndexOf(prompts, q);
  }

  // ----- download names -----

  const ListedFilePrefix: string := "Image-"
  const CustomFilePrefix: string := "Custom-Image-"
  const PngSuffix: string := ".png"

  /** The file name an image is saved under: numbered from 1 by list position, or
      stamped with the clock reading `now` for a custom image. */
  function DownloadFilename(prompts: seq<string>, prompt: string, now: nat): string {
    var idx := Seqs.IndexOf(prompts, prompt);
    if idx != -1 then ListedFilePrefix + Text.NatToString(idx + 1) + PngSuffix
    else CustomFilePrefix + Text.NatToString(now) + PngSuffix
  }

  /** A name starts with "Image-" exactly when the prompt is listed, and then carries the
      list position + 1 between the prefix and the ".png" suffix. */
  lemma FilenameMeaning(prompts: seq<string>, prompt: string, now: nat)
    ensures var r := DownloadFilename(prompts, prompt, now);
            && (prompt in prompts <==> Text.IsPrefix(ListedFilePrefix, r))
            && (prompt in prompts ==>
                  |ListedFilePrefix| + |PngSuffix| < |r|
                  && r[|ListedFilePrefix|..|r| - |PngSuffix|] == Text.NatToString(Seqs.IndexOf(prompts, prompt) + 1))
            && Text.OccursAt(r, PngSuffix, |r| - |PngSuffix|)
  {
    var idx := Seqs.IndexOf(prompts, prompt);
    var r := DownloadFilename(prompts, prompt, now);
    if idx != -1 {
      assert r[|ListedFilePrefix|..|r| - |PngSuffix|] == Text.NatToString(idx + 1);
    } else {
      assert r[0] == 'C';
    }
  }

  /** A listed image's file name is its own: no image of another prompt, listed or
      custom, is saved under the same name. */
  lemma FilenamesDistinguishPrompts(prompts: seq<string>, p: string, q: string, t: nat, u: nat)
    requires p in prompts && p != q
    ensures DownloadFilename(prompts, p, t) != DownloadFilename(prompts, q, u)
  {
    var fp := DownloadFilename(prompts, p, t);
    var fq := DownloadFilename(prompts, q, u);
    FilenameMeaning(prompts, p, t);
    FilenameMeaning(prompts, q, u);
    if q in prompts {
      var a := Seqs.IndexOf(prompts, p);
      var b := Seqs.IndexOf(prompts, q);
      Text.NatToStringInjective(a + 1, b + 1);
      assert fp[|ListedFilePrefix|..|fp| - |PngSuffix|] != fq[|ListedFilePrefix|..|fq| - |PngSuffix|];
    } else {
      assert Text.IsPrefix(ListedFilePrefix, fp) && !Text.IsPrefix(ListedFilePrefix, fq);
    }
  }

  // ----- save all -----

  /** Where an image goes in the "save all" order: the list position of its prompt,
      custom images after every listed one. */
  function SortKey(prompts: seq<string>, img: GeneratedImage): nat {
    var idx := Seqs.IndexOf(prompts, img.prompt);
    if idx == -1 then |prompts| else idx
  }

  predicate InDownloadOrder(prompts: seq<string>, s: seq<GeneratedImage>) {
    forall i, j :: 0 <= i < j < |s| ==> SortKey(prompts, s[i]) <= SortKey(prompts, s[j])
  }

  /** An outcome the comparator of the save-all sort admits: a rearrangement of the
      gallery in which listed images come first, by list position, and custom images
      last, in any order among themselves. */
  predicate ValidDownloadOrder(prompts: seq<string>, images: seq<GeneratedImage>, sorted: seq<GeneratedImage>) {
    multiset(sorted) == multiset(images) && InDownloadOrder(prompts, sorted)
  }

  /** Every image of `s` sorts at `b` or later. */
  predicate KeysFrom(prompts: seq<string>, s: seq<GeneratedImage>, b: nat) {
    forall k :: 0 <= k < |s| ==> b <= SortKey(prompts, s[k])
  }

  /** One step of the sort: `img` goes before the first image that does not sort earlier. */
  function Insert(prompts: seq<string>, img: GeneratedImage, s: seq<GeneratedImage>): (r: seq<GeneratedImage>)
    ensures multiset(r) == multiset(s) + multiset{img}
    decreases |s|
  {
    if |s| == 0 then [img]
    else if SortKey(prompts, img) <= SortKey(prompts, s[0]) then [img] + s
    else
      assert s == [s[0]] + s[1..];
      [s[0]] + Insert(prompts, img, s[1..])
  }

  /** Inserting an image that sorts at `b` or later keeps that lower bound. */
  lemma {:induction false} InsertKeepsBound(prompts: seq<string>, img: GeneratedImage, s: seq<GeneratedImage>, b: nat)
    requires KeysFrom(prompts, s, b) && b <= SortKey(prompts, img)
    ensures KeysFrom(prompts, Insert(prompts, img, s), b)
    decreases |s|
  {
    if |s| == 0 || SortKey(prompts, img) <= SortKey(prompts, s[0]) {
      KeysFromCons(prompts, img, s, b);
    } else {
      KeysFromTail(prompts, s, b);
      InsertKeepsBound(prompts, img, s[1..], b);
      KeysFromCons(prompts, s[0], Insert(prompts, img, s[1..]), b);
    }
  }

  lemma KeysFromCons(prompts: seq<string>, x: GeneratedImage, s: seq<GeneratedImage>, b: nat)
    requires KeysFrom(prompts, s, b) && b <= SortKey(prompts, x)
    ensures KeysFrom(prompts, [x] + s, b)
  {
    forall k | 0 < k < |[x] + s| ensures b <= SortKey(prompts, ([x] + s)[k]) {
      assert ([x] + s)[k] == s[k - 1];
    }
  }

  lemma KeysFromTail(prompts: seq<string>, s: seq<GeneratedImage>, b: nat)
    requires KeysFrom(prompts, s, b) && 0 < |s|
    ensures KeysFrom(prompts, s[1..], b)
  {
    forall k | 0 <= k < |s[1..]| ensures b <= SortKey(prompts, s[1..][k]) {
      assert s[1..][k] == s[k + 1];
    }
  }

  /** Inserting into a save-all order keeps it a save-all order. */
  lemma {:induction false} InsertKeepsOrder(prompts: seq<string>, img: GeneratedImage, s: seq<GeneratedImage>)
    requires InDownloadOrder(prompts, s)
    ensures InDownloadOrder(prompts, Insert(prompts, img, s))
    decreases |s|
  {
    if |s| == 0 {
      assert Insert(prompts, img, s) == [img];
    } else {
      OrderSplits(prompts, s);
      if SortKey(prompts, img) <= SortKey(prompts, s[0]) {
        PrependKeepsOrder(prompts, img, s);
      } else {
        InsertKeepsBound(prompts, img, s[1..], SortKey(prompts, s[0]));
        InsertKeepsOrder(prompts, img, s[1..]);
        PrependKeepsOrder(prompts, s[0], Insert(prompts, img, s[1..]));
      }
    }
  }

  /** A save-all order is its first image followed by a save-all order of images that
      sort no earlier. */
  lemma OrderSplits(prompts: seq<string>, s: seq<GeneratedImage>)
    requires InDownloadOrder(prompts, s) && 0 < |s|
    ensures KeysFrom(prompts, s, SortKey(prompts, s[0]))
    ensures KeysFrom(prompts, s[1..], SortKey(prompts, s[0]))
    ensures InDownloadOrder(prompts, s[1..])
  {
    forall k | 0 < k < |s| ensures SortKey(prompts, s[0]) <= SortKey(prompts, s[k]) {
    }
    forall k | 0 <= k < |s[1..]| ensures SortKey(prompts, s[0]) <= SortKey(prompts, s[1..][k]) {
      assert s[1..][k] == s[k + 1];
    }
    forall i, j | 0 <= i < j < |s[1..]| ensures SortKey(prompts, s[1..][i]) <= SortKey(prompts, s[1..][j]) {
      assert s[1..][i] == s[i + 1] && s[1..][j] == s[j + 1];
    }
  }

  /** An image that sorts no later than a save-all order may go in front of it. */
  lemma PrependKeepsOrder(prompts: seq<string>, x: GeneratedImage, s: seq<GeneratedImage>)
    requires InDownloadOrder(prompts, s) && KeysFrom(prompts, s, SortKey(prompts, x))
    ensures InDownloadOrder(prompts, [x] + s)
  {
    var r := [x] + s;
    forall i, j | 0 <= i < j < |r| ensures SortKey(prompts, r[i]) <= SortKey(prompts, r[j]) {
      assert r[j] == s[j - 1];
      if 0 < i {
        assert r[i] == s[i - 1];
      }
    }
  }

  /** The gallery arranged for "save all". */
  function SortForDownload(prompts: seq<string>, images: seq<GeneratedImage>): (r: seq<GeneratedImage>)
    ensures ValidDownloadOrder(prompts, images, r)
    decreases |images|
  {
    if |images| == 0 then []
    else
      assert images == [images[0]] + images[1..];
      var sorted := SortForDownload(prompts, images[1..]);
      InsertKeepsOrder(prompts, images[0], sorted);
      Insert(prompts, images[0], sorted)
  }

  /** In a save-all order, listed images precede custom ones and follow the prompt list. */
  lemma DownloadOrderMeaning(prompts: seq<string>, s: seq<GeneratedImage>, i: nat, j: nat)
    requires InDownloadOrder(prompts, s) && i < j < |s|
    ensures s[j].prompt in prompts ==> s[i].prompt in prompts
    ensures s[j].prompt in prompts ==> Seqs.IndexOf(prompts, s[i].prompt) <= Seqs.IndexOf(prompts, s[j].prompt)
  {
    assert SortKey(prompts, s[i]) <= SortKey(prompts, s[j]);
  }

  /** One file save: the link target and the file name. */
  datatype Save = Save(href: string, filename: string)

  /** What "save all" does: the ready images in save order, one save each, and
      whether the "nothing to download" notice is raised. */
  datatype DownloadRun = DownloadRun(order: seq<GeneratedImage>, saves: seq<Save>, nothingReady: bool)

  /** The name of the file an image is saved under when the clock reads `now(k)`
      at the k-th save. */
  function NameAt(prompts: seq<string>, now: nat -> nat): (string, nat) -> string {
    (prompt: string, k: nat) => DownloadFilename(prompts, prompt, now(k))
  }

  /** The saves for `order`, from the `k`-th save on, named by `nameAt`. */
  function SavesFrom(order: seq<GeneratedImage>, k: nat, nameAt: (string, nat) -> string): (r: seq<Save>)
    ensures |r| == |order|
    decreases |order|
  {
    if |order| == 0 then []
    else [Save(order[0].dataUrl, nameAt(order[0].prompt, k))] + SavesFrom(order[1..], k + 1, nameAt)
  }

  /** The i-th save links the i-th image's data under the name for save k+i. */
  lemma {:induction false} SavesFromMeaning(order: seq<GeneratedImage>, k: nat, nameAt: (string, nat) -> string)
    ensures forall i :: 0 <= i < |order| ==>
              SavesFrom(order, k, nameAt)[i] == Save(order[i].dataUrl, nameAt(order[i].prompt, k + i))
    decreases |order|
  {
    if |order| > 0 {
      var r := SavesFrom(order, k, nameAt);
      var rest := SavesFrom(order[1..], k + 1, nameAt);
      SavesFromMeaning(order[1..], k + 1, nameAt);
      forall i | 1 <= i < |order|
        ensures r[i] == Save(order[i].dataUrl, nameAt(order[i].prompt, k + i))
      {
        assert r[i] == rest[i - 1];
        assert order[1..][i - 1] == order[i];
        assert k + 1 + (i - 1) == k + i;
      }
    }
  }

  /** `handleDownloadAll`: sort, skip images that are loading or carry no data, save
      the rest, and raise the notice when nothing was saved. */
  function DownloadAll(prompts: seq<string>, images: seq<GeneratedImage>, now: nat -> nat): (r: DownloadRun)
    ensures |r.saves| == |r.order| == |Seqs.Filter(images, IsReady)|
    ensures forall k :: 0 <= k < |r.saves| ==> r.saves[k].href == r.order[k].dataUrl != ""
    ensures forall k :: 0 <= k < |r.saves| ==> r.saves[k].filename == NameAt(prompts, now)(r.order[k].prompt, k)
    ensures r.nothingReady <==> forall i :: 0 <= i < |images| ==> !IsReady(images[i])
  {
    var sorted := SortForDownload(prompts, images);
    var order := Seqs.Filter(sorted, IsReady);
    Seqs.FilterLengthPermutation(sorted, images, IsReady);
    NoneReady(images);
    SavesFromMeaning(order, 0, NameAt(prompts, now));
    DownloadRun(order, SavesFrom(order, 0, NameAt(prompts, now)), |order| == 0)
  }

  /** No image is ready exactly when filtering for ready images leaves nothing. */
  lemma NoneReady(images: seq<GeneratedImage>)
    ensures |Seqs.Filter(images, IsReady)| == 0 <==> forall i :: 0 <= i < |images| ==> !IsReady(images[i])
  {
    var ready := Seqs.Filter(images, IsReady);
    if 0 < |ready| {
      assert ready[0] in images && IsReady(ready[0]);
    }
  }

  /** What "save all" saves: exactly the ready images, each as often as in the
      gallery, in save-all order. */
  lemma DownloadAllSavesReady(prompts: seq<string>, images: seq<GeneratedImage>, now: nat -> nat)
    ensures var order := DownloadAll(prompts, images, now).order;
            && InDownloadOrder(prompts, order)
            && (forall k :: 0 <= k < |order| ==> IsReady(order[k]) && order[k] in images)
            && (forall i :: 0 <= i < |images| && IsReady(images[i]) ==> images[i] in order)
            && multiset(order) == multiset(Seqs.Filter(images, IsReady))
  {
    ReadyInOrder(prompts, images);
  }

  /** The ready images in save-all order: ordered, all of them and only them, each
      as often as in the gallery. */
  lemma ReadyInOrder(prompts: seq<string>, images: seq<GeneratedImage>)
    ensures var order := Seqs.Filter(SortForDownload(prompts, images), IsReady);
            && InDownloadOrder(prompts, order)
            && (forall k :: 0 <= k < |order| ==> order[k] in images)
            && (forall i :: 0 <= i < |images| && IsReady(images[i]) ==> images[i] in order)
            && |order| == |Seqs.Filter(images, IsReady)|
            && multiset(order) == multiset(Seqs.Filter(images, IsReady))
  {
    var sorted := SortForDownload(prompts, images);
    var order := Seqs.Filter(sorted, IsReady);
    FilterKeepsDownloadOrder(prompts, sorted);
    Seqs.FilterPermutation(sorted, images, IsReady);
    SameReadyImages(images, order);
  }

  /** A rearrangement of the ready images holds every ready image and nothing else. */
  lemma SameReadyImages(images: seq<GeneratedImage>, order: seq<GeneratedImage>)
    requires multiset(order) == multiset(Seqs.Filter(images, IsReady))
    ensures forall k :: 0 <= k < |order| ==> order[k] in images
    ensures forall i :: 0 <= i < |images| && IsReady(images[i]) ==> images[i] in order
    ensures |order| == |Seqs.Filter(images, IsReady)|
  {
    var ready := Seqs.Filter(images, IsReady);
    assert |order| == |multiset(order)| == |multiset(ready)| == |ready|;
    forall k | 0 <= k < |order| ensures order[k] in images {
      assert order[k] in multiset(ready);
    }
    forall i | 0 <= i < |images| && IsReady(images[i]) ensures images[i] in order {
      assert images[i] in ready;
      assert images[i] in multiset(order);
    }
  }

  /** Skipping images that are not ready keeps the save-all order. */
  lemma FilterKeepsDownloadOrder(prompts: seq<string>, sorted: seq<GeneratedImage>)
    requires InDownloadOrder(prompts, sorted)
    ensures InDownloadOrder(prompts, Seqs.Filter(sorted, IsReady))
  {
    var before := (a: GeneratedImage, b: GeneratedImage) => SortKey(prompts, a) <= SortKey(prompts, b);
    Seqs.FilterKeepsOrder(sorted, IsReady, before);
    var order := Seqs.Filter(sorted, IsReady);
    assert forall i, j :: 0 <= i < j < |order| ==> before(order[i], order[j]);
  }

  // ----- progress -----

  /** How many suggested prompts have an image (list entries, so a repeated prompt counts twice). */
  function GeneratedCount(prompts: seq<string>, images: seq<GeneratedImage>): (n: nat)
    ensures n + |Workflow.Queue(prompts, images)| == |prompts|
  {
    Seqs.FilterPartition(prompts, HasImage(images), Workflow.NeedsImage(images));
    |Seqs.Filter(prompts, HasImage(images))|
  }

  /** The test "some image carries this prompt", which marks a list entry as generated. */
  function HasImage(images: seq<GeneratedImage>): string -> bool {
    (p: string) => HasImageFor(images, p)
  }

  /** Every suggested prompt has an image, and there is at least one prompt. */
  function AllGenerated(prompts: seq<string>, images: seq<GeneratedImage>): (b: bool)
    ensures b <==> 0 < |prompts| && forall i :: 0 <= i < |prompts| ==> HasImageFor(images, prompts[i])
    ensures b <==> 0 < |prompts| && |Workflow.Queue(prompts, images)| == 0
  {
    Seqs.FilterKeepsAll(prompts, HasImage(images));
    GeneratedCount(prompts, images) == |prompts| && |prompts| > 0
  }

  // ----- prompt export -----

  const ExportLinePrefix: string := "Image "
  const ExportLineColon: string := ": "
  const ExportSeparator: string := "\n\n"

  /** Line `i` of the exported prompt file, numbered from 1. */
  function ExportLine(i: nat, p: string): string {
    ExportLinePrefix + Text.NatToString(i + 1) + ExportLineColon + p
  }

  /** The export lines for `prompts`, numbered from position `k`. */
  function ExportLinesFrom(prompts: seq<string>, k: nat): (r: seq<string>)
    ensures |r| == |prompts|
    decreases |prompts|
  {
    if |prompts| == 0 then [] else [ExportLine(k, prompts[0])] + ExportLinesFrom(prompts[1..], k + 1)
  }

  /** Line i is the export line of prompt i at position k+i. */
  lemma {:induction false} ExportLinesMeaning(prompts: seq<string>, k: nat)
    ensures forall i :: 0 <= i < |prompts| ==> ExportLinesFrom(prompts, k)[i] == ExportLine(k + i, prompts[i])
    decreases |prompts|
  {
    if |prompts| > 0 {
      var r := ExportLinesFrom(prompts, k);
      var rest := ExportLinesFrom(prompts[1..], k + 1);
      ExportLinesMeaning(prompts[1..], k + 1);
      forall i | 1 <= i < |prompts| ensures r[i] == ExportLine(k + i, prompts[i]) {
        assert r[i] == rest[i - 1];
        assert prompts[1..][i - 1] == prompts[i];
        assert k + 1 + (i - 1) == k + i;
      }
    }
  }

  /** `downloadPrompts`: the prompt file's text, or nothing when there are no prompts. */
  function PromptExport(prompts: seq<string>): (r: Option<string>)
    ensures r.None? <==> |prompts| == 0
    ensures |prompts| == 1 ==> r == Some(ExportLine(0, prompts[0]))
  {
    if |prompts| == 0 then None else Some(Text.Join(ExportLinesFrom(prompts, 0), ExportSeparator))
  }

  /** One more prompt adds one more numbered line after a blank line. */
  lemma PromptExportSnoc(prompts: seq<string>, p: string)
    requires 0 < |prompts|
    ensures PromptExport(prompts + [p]).value
            == PromptExport(prompts).value + ExportSeparator + ExportLine(|prompts|, p)
  {
    LinesSnoc(prompts, p, 0);
    Text.JoinSnoc(ExportLinesFrom(prompts, 0), ExportLine(|prompts|, p), ExportSeparator);
  }

  lemma {:induction false} LinesSnoc(prompts: seq<string>, p: string, k: nat)
    ensures ExportLinesFrom(prompts + [p], k) == ExportLinesFrom(prompts, k) + [ExportLine(k + |prompts|, p)]
    decreases |prompts|
  {
    if |prompts| == 0 {
      assert prompts + [p] == [p];
    } else {
      var head := [ExportLine(k, prompts[0])];
      var last := [ExportLine(k + |prompts|, p)];
      assert (prompts + [p])[1..] == prompts[1..] + [p];
      assert (prompts + [p])[0] == prompts[0];
      assert k + 1 + |prompts[1..]| == k + |prompts|;
      LinesSnoc(prompts[1..], p, k + 1);
      calc {
        ExportLinesFrom(prompts + [p], k);
        head + ExportLinesFrom(prompts[1..] + [p], k + 1);
        head + (ExportLinesFrom(prompts[1..], k + 1) + last);
        (head + ExportLinesFrom(prompts[1..], k + 1)) + last;
        ExportLinesFrom(prompts, k) + last;
      }
    }
  }

  /** Reads an export line back into its list position and prompt. */
  function ParseExportLine(line: string): Option<(nat, string)> {
    if |ExportLinePrefix| <= |line| && Text.IsPrefix(ExportLinePrefix, line) then
      ParseNumbered(line[|ExportLinePrefix|..])
    else None
  }

  /** Reads "N: prompt" back into position N-1 and the prompt. */
  function ParseNumbered(rest: string): Option<(nat, string)> {
    var n := Text.DigitRun(rest);
    if 0 < n && n + |ExportLineColon| <= |rest| && Text.IsPrefix(ExportLineColon, rest[n..])
       && 0 < Text.ParseNat(rest[..n]) then
      Some((Text.ParseNat(rest[..n]) - 1, rest[n + |ExportLineColon|..]))
    else None
  }

  /** Every export line gives back its position and its prompt, whatever the prompt holds. */
  lemma ExportLineRoundTrip(i: nat, p: string)
    ensures ParseExportLine(ExportLine(i, p)) == Some((i, p))
  {
    var digits := Text.NatToString(i + 1);
    var numbered := digits + (ExportLineColon + p);
    assert ExportLine(i, p) == ExportLinePrefix + numbered;
    Text.SplitConcat(ExportLinePrefix, numbered);
    NumberedRoundTrip(i, p);
  }

  lemma NumberedRoundTrip(i: nat, p: string)
    ensures ParseNumbered(Text.NatToString(i + 1) + (ExportLineColon + p)) == Some((i, p))
  {
    var digits := Text.NatToString(i + 1);
    var tail := ExportLineColon + p;
    var rest := digits + tail;
    Text.DigitRunOfRendering(i + 1, tail);
    Text.SplitConcat(digits, tail);
    Text.SplitConcat(ExportLineColon, p);
    Text.ParseNatToString(i + 1);
    assert rest[|digits|..][|ExportLineColon|..] == rest[|digits| + |ExportLineColon|..];
  }

  // ----- controls -----

  /** The controls the panel shows. */
  datatype PanelView = PanelView(promptsButton: bool, gallery: bool, saveAll: bool, generateAll: bool)

  function ShowGeneratePromptsButton(hasContent: bool, prompts: seq<string>): bool {
    hasContent && |prompts| == 0
  }

  /** The panel: the "generate prompts" step while there are none; afterwards the
      gallery with "save all" once there are images, and "generate all" until every
      prompt has an image. */
  function Panel(hasContent: bool, prompts: seq<string>, images: seq<GeneratedImage>): (v: PanelView)
    ensures hasContent ==> (v.promptsButton <==> !v.gallery)
    ensures v.gallery <==> 0 < |prompts|
    ensures v.generateAll <==> v.gallery && 0 < |Workflow.Queue(prompts, images)|
    ensures v.saveAll <==> v.gallery && 0 < |images|
  {
    var button := ShowGeneratePromptsButton(hasContent, prompts);
    var gallery := !button && |prompts| > 0;
    PanelView(button, gallery, gallery && |images| > 0, gallery && !AllGenerated(prompts, images))
  }

  /** Once prompts are stored for a draft, the panel moves on from the prompt step. */
  lemma StoredPromptsOpenGallery(post: Option<BlogPost>, editorText: string,
                                 respond: Workflow.PromptAsk -> Result<seq<string>, ApiError>,
                                 images: seq<GeneratedImage>)
    requires var step := Workflow.GeneratePrompts(post, editorText, respond);
             step.notice == Workflow.PromptsStored && 0 < |respond(step.ask.value).value|
    ensures var step := Workflow.GeneratePrompts(post, editorText, respond);
            var v := Panel(true, step.post.value.suggestedImagePrompts, images);
            !v.promptsButton && v.gallery
  {
  }
}
