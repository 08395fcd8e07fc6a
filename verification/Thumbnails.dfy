/** The thumbnail pipeline of the image list: open and convert callbacks fill in icons one by one. */
module Thumbnails {

  /** A list item: the number of the icon it shows, 0 being the placeholder, and the image whose
      text it carries. */
  datatype Item = Item(icon: nat, image: nat)

  datatype Pipeline = Pipeline(images: nat, index: nat, icons: nat, items: seq<Item>, running: bool)

  /** Whether opening the next image leaves; asked once, and once more when the trap tries again. */
  datatype Opening = Opening(firstLeaves: bool, secondLeaves: bool)

  /** What a callback meets. */
  datatype Callback =
    /** opened without error: the bitmap could not be created, or converting left, or all is well */
    | OpenedNoBitmap(opening: Opening)
    | OpenedLeft(opening: Opening)
    | Opened
    /** opened with an error: the attempt to decrypt left, or did not */
    | OpenFailedLeft(opening: Opening)
    | OpenFailed
    /** converted: the icon was not made; made but the item was not replaced; made and replaced, and
        redrawing left or not */
    | ConvertedNoIcon(opening: Opening)
    | Converted(replaced: bool, redrawLeft: bool, opening: Opening)
    /** conversion failed: with KErrArgument it is tried again, and that may leave */
    | ConvertRetried
    | ConvertRetryLeft(opening: Opening)
    | ConvertFailed(opening: Opening)

  class ImageList {
    var images: nat
    var index: nat
    var icons: nat
    var items: seq<Item>
    var running: bool

    function View(): Pipeline reads this { Pipeline(images, index, icons, items, running) }

    /** ConstructL: one icon, and a placeholder item per image. */
    constructor (images: nat)
      ensures View() == Pipeline(images, 0, 1, seq(images, k requires 0 <= k => Item(0, k)), images > 0)
    {
      this.images, index, icons, running := images, 0, 1, images > 0;
      items := [];
      new;
      for i := 0 to images
        invariant this.images == images && index == 0 && icons == 1 && running == (images > 0)
        invariant items == seq(i, k requires 0 <= k => Item(0, k))
      {
        items := items + [Item(0, i)];
      }
    }

    /** ConvertNextImageL. */
    method ConvertNextImage(leaves: bool) returns (left: bool)
      requires running
      modifies this`index, this`running
      ensures index == old(index) + 1 && running == (index < images)
      ensures left == (running && leaves)
    {
      index := index + 1;
      if index >= images {
        running := false;
        return false;
      }
      left := leaves;
    }

    /** ConvertNextImageL inside the trap of a callback: a leave makes the handler call it again. */
    method NextOrSkip(opening: Opening)
      requires running
      modifies this`index, this`running
      ensures View() == Advanced(old(View()), opening)
    {
      var left := ConvertNextImage(opening.firstLeaves);
      if left {
        left := ConvertNextImage(opening.secondLeaves);
      }
    }

    /** Append the icon; insert an item that shows it and delete the placeholder that has moved behind. */
    method AddThumbnail(replaced: bool)
      requires index < |items|
      modifies this`icons, this`items
      ensures icons == old(icons) + 1
      ensures items == if replaced then old(items)[index := Item(old(icons), index)] else old(items)
    {
      icons := icons + 1;
      if replaced {
        items := items[..index] + [Item(icons - 1, index)] + items[index..];
        items := items[..index + 1] + items[index + 2..];
      }
    }

    /** MiuoOpenComplete and MiuoConvertComplete. */
    method Handle(c: Callback)
      requires running && |items| == images && index < images
      modifies this
      ensures View() == Handled(old(View()), c)
    {
      match c
      case OpenedNoBitmap(o) => NextOrSkip(o);
      case OpenedLeft(o) => var left := ConvertNextImage(o.firstLeaves);
      case Opened =>
      case OpenFailedLeft(o) => var left := ConvertNextImage(o.firstLeaves);
      case OpenFailed =>
      case ConvertedNoIcon(o) => var left := ConvertNextImage(o.firstLeaves);
      case Converted(replaced, redrawLeft, o) =>
        AddThumbnail(replaced);
        if redrawLeft {
          var left := ConvertNextImage(o.firstLeaves);
        } else {
          NextOrSkip(o);
        }
      case ConvertRetried =>
      case ConvertRetryLeft(o) => var left := ConvertNextImage(o.firstLeaves);
      case ConvertFailed(o) => NextOrSkip(o);
    }
  }

  function OneOn(p: Pipeline): Pipeline { p.(index := p.index + 1, running := p.index + 1 < p.images) }

  function Advanced(p: Pipeline, opening: Opening): Pipeline {
    var q := OneOn(p);
    if q.running && opening.firstLeaves then OneOn(q) else q
  }

  /** One more icon, and the current item showing it if it could be replaced. */
  function WithIcon(p: Pipeline, replaced: bool): Pipeline
    requires p.index < |p.items|
  {
    p.(icons := p.icons + 1, items := if replaced then p.items[p.index := Item(p.icons, p.index)] else p.items)
  }

  function Handled(p: Pipeline, c: Callback): Pipeline
    requires p.index < |p.items|
  {
    match c
    case Opened => p
    case OpenFailed => p
    case ConvertRetried => p
    case OpenedNoBitmap(o) => Advanced(p, o)
    case ConvertFailed(o) => Advanced(p, o)
    case OpenedLeft(_) => OneOn(p)
    case OpenFailedLeft(_) => OneOn(p)
    case ConvertedNoIcon(_) => OneOn(p)
    case ConvertRetryLeft(_) => OneOn(p)
    case Converted(replaced, redrawLeft, o) =>
      var q := WithIcon(p, replaced);
      if redrawLeft then OneOn(q) else Advanced(q, o)
  }

  /** One item per image with that image's text; from the current image on all are placeholders;
      every icon number is in range; and real icons come in the order of their items. */
  ghost predicate Consistent(p: Pipeline) {
    && |p.items| == p.images && p.index <= p.images && p.icons > 0
    && p.running == (p.index < p.images)
    && (forall k :: 0 <= k < |p.items| ==> p.items[k].image == k && p.items[k].icon < p.icons)
    && (forall k :: p.index <= k < |p.items| ==> p.items[k].icon == 0)
    && (forall j, k :: 0 <= j < k < |p.items| && p.items[j].icon > 0 && p.items[k].icon > 0 ==>
          p.items[j].icon < p.items[k].icon)
  }

  /** Moving on to the next image. */
  lemma OneOnKeeps(p: Pipeline)
    requires Consistent(p) && p.running
    ensures Consistent(OneOn(p))
  {
  }

  lemma AdvancedKeeps(p: Pipeline, opening: Opening)
    requires Consistent(p) && p.running
    ensures Consistent(Advanced(p, opening))
  {
    hide Consistent;
    OneOnKeeps(p);
    if OneOn(p).running && opening.firstLeaves {
      OneOnKeeps(OneOn(p));
    }
  }

  /** The new icon is the last one, so its number tops all in front of the current image. The list
      is consistent again once the pipeline has moved on. */
  lemma ReplacedKeeps(p: Pipeline, replaced: bool)
    requires Consistent(p) && p.running
    ensures var q := WithIcon(p, replaced);
            Consistent(OneOn(q))
  {
  }

  lemma StepKeepsConsistent(p: Pipeline, c: Callback)
    requires Consistent(p) && p.running
    ensures Consistent(Handled(p, c))
  {
    match c
    case Converted(replaced, redrawLeft, o) =>
      assert p.index < |p.items|;
      hide Consistent;
      ReplacedKeeps(p, replaced);
      var q := WithIcon(p, replaced);
      if !redrawLeft && OneOn(q).running && o.firstLeaves {
        OneOnKeeps(OneOn(q));
      }
    case OpenedNoBitmap(o) =>
      hide Consistent;
      AdvancedKeeps(p, o);
    case ConvertFailed(o) =>
      hide Consistent;
      AdvancedKeeps(p, o);
    case _ =>
      hide Consistent;
      OneOnKeeps(p);
  }

  /** What one callback leaves alone. */
  ghost predicate Follows(p: Pipeline, q: Pipeline) {
    && q.images == p.images && |q.items| == |p.items| && p.index <= q.index && p.icons <= q.icons
    && forall k :: 0 <= k < |p.items| && (k < p.index || p.items[k].icon > 0) ==> q.items[k] == p.items[k]
  }

  lemma StepFollows(p: Pipeline, c: Callback)
    requires Consistent(p) && p.running
    ensures p.index < |p.items| && Follows(p, Handled(p, c))
  {
  }

  /** How far a callback moves on, and that only a converted picture adds an icon or changes an item. */
  lemma CallbackMoves(p: Pipeline, c: Callback)
    requires Consistent(p) && p.running
    ensures var q := Handled(p, c);
            && (c.Opened? || c.OpenFailed? || c.ConvertRetried? ==> q == p)
            && (c.OpenedLeft? || c.OpenFailedLeft? || c.ConvertedNoIcon? || c.ConvertRetryLeft? ==>
                  q.index == p.index + 1)
            && (c.Converted? && c.redrawLeft ==> q.index == p.index + 1)
            && (c.OpenedNoBitmap? || c.ConvertFailed? || (c.Converted? && !c.redrawLeft) ==>
                  q.index == p.index + if c.opening.firstLeaves && p.index + 1 < p.images then 2 else 1)
            && (!c.Converted? ==> q.icons == p.icons && q.items == p.items)
            && (c.Converted? ==> q.icons == p.icons + 1)
            && (c.Converted? && !c.replaced ==> q.items == p.items)
            && q.running == (q.index < p.images)
  {
  }

  /** Callbacks only come while a conversion is running. */
  ghost function Run(p: Pipeline, cs: seq<Callback>): Pipeline
    requires Consistent(p)
    decreases |cs|
  {
    if cs == [] || !p.running then p
    else
      StepKeepsConsistent(p, cs[0]);
      Run(Handled(p, cs[0]), cs[1..])
  }

  /** Over every sequence of callbacks the list stays consistent, the current image never goes back,
      and an item that has its thumbnail keeps it. */
  lemma {:induction false} PipelineInvariant(p: Pipeline, cs: seq<Callback>)
    requires Consistent(p)
    ensures Consistent(Run(p, cs)) && Follows(p, Run(p, cs))
    decreases |cs|
  {
    if cs != [] && p.running {
      StepFollows(p, cs[0]);
      hide Consistent, Handled;
      StepKeepsConsistent(p, cs[0]);
      PipelineInvariant(Handled(p, cs[0]), cs[1..]);
    }
  }

  /** A converted picture whose item is replaced is shown at its place for good: there the item shows
      the icon that was added last, all other items are as before, and no callback after it changes
      that. */
  lemma ThumbnailStays(p: Pipeline, redrawLeft: bool, opening: Opening, after: seq<Callback>)
    requires Consistent(p) && p.running
    ensures var q := Run(p, [Converted(true, redrawLeft, opening)] + after);
            && |q.items| == p.images && p.index < p.images
            && q.items[p.index] == Item(p.icons, p.index) && p.icons < q.icons
            && forall k :: 0 <= k < p.index ==> q.items[k] == p.items[k]
  {
    var c := Converted(true, redrawLeft, opening);
    assert ([c] + after)[0] == c && ([c] + after)[1..] == after;
    ConvertedShows(p, c);
    StepFollows(p, c);
    StepKeepsConsistent(p, c);
    hide Consistent, Handled;
    PipelineInvariant(Handled(p, c), after);
  }

  lemma ConvertedShows(p: Pipeline, c: Callback)
    requires Consistent(p) && p.running && c.Converted? && c.replaced
    ensures p.index < p.images == |p.items|
    ensures var q := Handled(p, c);
            && |q.items| == p.images && q.index > p.index && q.icons == p.icons + 1
            && q.items[p.index] == Item(p.icons, p.index)
            && forall k :: 0 <= k < p.images && k != p.index ==> q.items[k] == p.items[k]
  {
  }

  lemma ConstructedIsConsistent(images: nat)
    ensures Consistent(Pipeline(images, 0, 1, seq(images, k requires 0 <= k => Item(0, k)), images > 0))
  {
  }
}
