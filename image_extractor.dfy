/** Text-image fusion: for one image, pick the caption and the nearby text
    among the text blocks of its page (`ImageExtractor.find_nearby_text`). */
module ImageExtractor {
  import opened Text
  import opened Models
  import opened Lists

  /** Proximity threshold in page units. */
  const Threshold: real := 50.0

  /** Words whose presence (case-insensitive) makes an above-image block a caption. */
  const CaptionKeywords: seq<string> := ["figure", "fig", "image", "diagram", "scheme"]

  /** Most nearby texts returned for one image. */
  const MaxNearby: nat := 3

  function Abs(x: real): real {
    if x < 0.0 then -x else x
  }

  /** Distance between the vertical centres of two boxes. */
  function CentreDistance(a: BBox, b: BBox): real {
    Abs(CentreY(a) - CentreY(b))
  }

  predicate LooksLikeCaption(text: string) {
    ContainsAny(Strip(Lower(text)), CaptionKeywords)
  }

  /** What one text block becomes for an image. */
  datatype Role = CaptionRole | NearbyRole | Ignored

  /** The if/elif chain of the fusion loop, for one block. */
  function RoleOf(img: BBox, tb: TextBlock): Role {
    var d := CentreDistance(tb.bbox, img);
    if tb.bbox.y2 < img.y1 && d < Threshold * 2.0 then
      (if LooksLikeCaption(tb.text) then CaptionRole else NearbyRole)
    else if tb.bbox.y1 > img.y2 && d < Threshold * 2.0 then NearbyRole
    else if tb.bbox.x1 < img.x2 && tb.bbox.x2 > img.x1 then
      (if d < Threshold then NearbyRole else Ignored)
    else Ignored
  }

  /** The blocks of `blocks` that lie on page `page`, in order. */
  function OnPage(blocks: seq<TextBlock>, page: int): (r: seq<TextBlock>)
    ensures |r| <= |blocks|
  {
    if blocks == [] then []
    else (if blocks[0].pageNumber == page then [blocks[0]] else []) + OnPage(blocks[1..], page)
  }

  /** Caption after scanning `blocks` in order: every caption-role block
      overwrites the previous one. */
  function CaptionOf(img: BBox, blocks: seq<TextBlock>): Option<string>
    decreases |blocks|
  {
    if blocks == [] then None
    else if RoleOf(img, Last(blocks)) == CaptionRole then Some(Last(blocks).text)
    else CaptionOf(img, blocks[..|blocks| - 1])
  }

  /** Every nearby-role text, in input order, before truncation. */
  function NearbyOf(img: BBox, blocks: seq<TextBlock>): seq<string>
    decreases |blocks|
  {
    if blocks == [] then []
    else
      NearbyOf(img, blocks[..|blocks| - 1])
      + (if RoleOf(img, Last(blocks)) == NearbyRole then [Last(blocks).text] else [])
  }

  /** Python's `s[:n]`. */
  function Take<T>(s: seq<T>, n: nat): seq<T> {
    if |s| <= n then s else s[..n]
  }

  /** `(caption, nearby)` as `find_nearby_text` returns them. */
  function NearbyText(img: ImageBlock, blocks: seq<TextBlock>, page: int): (Option<string>, seq<string>) {
    if img.pageNumber != page then (None, [])
    else
      var onPage := OnPage(blocks, page);
      if onPage == [] then (None, [])
      else (CaptionOf(img.bbox, onPage), Take(NearbyOf(img.bbox, onPage), MaxNearby))
  }

  /** One more block sets the caption or adds a nearby text according to
      its role. */
  lemma ScanStep(img: BBox, blocks: seq<TextBlock>, i: nat)
    requires i < |blocks|
    ensures CaptionOf(img, blocks[..i + 1])
      == if RoleOf(img, blocks[i]) == CaptionRole then Some(blocks[i].text) else CaptionOf(img, blocks[..i])
    ensures NearbyOf(img, blocks[..i + 1])
      == NearbyOf(img, blocks[..i]) + if RoleOf(img, blocks[i]) == NearbyRole then [blocks[i].text] else []
  {
    assert blocks[..i + 1][..i] == blocks[..i];
    assert Last(blocks[..i + 1]) == blocks[i];
  }

  method FindNearbyText(img: ImageBlock, textBlocks: seq<TextBlock>, page: int)
    returns (caption: Option<string>, nearby: seq<string>)
    ensures (caption, nearby) == NearbyText(img, textBlocks, page)
  {
    if img.pageNumber != page {
      return None, [];
    }
    var pageBlocks := OnPage(textBlocks, page);
    if pageBlocks == [] {
      return None, [];
    }
    var nearbyBlocks: seq<string> := [];
    caption := None;
    var imgCentre := CentreY(img.bbox);
    var i := 0;
    while i < |pageBlocks|
      invariant 0 <= i <= |pageBlocks|
      invariant caption == CaptionOf(img.bbox, pageBlocks[..i])
      invariant nearbyBlocks == NearbyOf(img.bbox, pageBlocks[..i])
    {
      ScanStep(img.bbox, pageBlocks, i);
      var tb := pageBlocks[i];
      var distance := Abs(CentreY(tb.bbox) - imgCentre);
      if tb.bbox.y2 < img.bbox.y1 && distance < Threshold * 2.0 {
        var textLower := Strip(Lower(tb.text));
        if ContainsAny(textLower, CaptionKeywords) {
          caption := Some(tb.text);
        } else {
          nearbyBlocks := nearbyBlocks + [tb.text];
        }
      } else if tb.bbox.y1 > img.bbox.y2 && distance < Threshold * 2.0 {
        nearbyBlocks := nearbyBlocks + [tb.text];
      } else if tb.bbox.x1 < img.bbox.x2 && tb.bbox.x2 > img.bbox.x1 {
        if distance < Threshold {
          nearbyBlocks := nearbyBlocks + [tb.text];
        }
      }
      i := i + 1;
    }
    assert pageBlocks[..i] == pageBlocks;
    nearby := Take(nearbyBlocks, MaxNearby);
  }

  /** There is no caption exactly when no block is caption-role. */
  lemma {:induction false} NoCaptionIff(img: BBox, blocks: seq<TextBlock>)
    ensures CaptionOf(img, blocks) == None <==>
      forall i :: 0 <= i < |blocks| ==> RoleOf(img, blocks[i]) != CaptionRole
    decreases |blocks|
  {
    if blocks != [] {
      var n := |blocks| - 1;
      var front := blocks[..n];
      NoCaptionIff(img, front);
      if RoleOf(img, blocks[n]) != CaptionRole {
        assert CaptionOf(img, blocks) == CaptionOf(img, front);
        assert forall i :: 0 <= i < n ==> front[i] == blocks[i];
      }
    }
  }

  /** Block `i` is caption-role and no later block is. */
  predicate LastCaptionAt(img: BBox, blocks: seq<TextBlock>, i: int) {
    && 0 <= i < |blocks| && RoleOf(img, blocks[i]) == CaptionRole
    && forall j :: i < j < |blocks| ==> RoleOf(img, blocks[j]) != CaptionRole
  }

  /** The front's last caption block stays the last one when the last block
      is not caption-role. */
  lemma FrontCaption(img: BBox, blocks: seq<TextBlock>, i: nat)
    requires blocks != [] && LastCaptionAt(img, blocks[..|blocks| - 1], i)
    requires RoleOf(img, Last(blocks)) != CaptionRole
    ensures LastCaptionAt(img, blocks, i) && blocks[i] == blocks[..|blocks| - 1][i]
  {
    var n := |blocks| - 1;
    var front := blocks[..n];
    assert blocks[i] == front[i];
    forall j | i < j < |blocks|
      ensures RoleOf(img, blocks[j]) != CaptionRole
    {
      if j < n {
        assert blocks[j] == front[j];
      }
    }
  }

  /** The position of the block the caption comes from. */
  lemma {:induction false} CaptionWitness(img: BBox, blocks: seq<TextBlock>) returns (i: nat)
    requires CaptionOf(img, blocks).Some?
    ensures LastCaptionAt(img, blocks, i) && blocks[i].text == CaptionOf(img, blocks).value
    decreases |blocks|
  {
    var n := |blocks| - 1;
    if RoleOf(img, blocks[n]) == CaptionRole {
      i := n;
    } else {
      var front := blocks[..n];
      assert CaptionOf(img, blocks) == CaptionOf(img, front);
      i := CaptionWitness(img, front);
      FrontCaption(img, blocks, i);
    }
  }

  /** The last caption-like block wins: a caption is the original text of a
      caption-role block after which no block is caption-role. */
  lemma CaptionIsLastCaptionBlock(img: BBox, blocks: seq<TextBlock>)
    requires CaptionOf(img, blocks).Some?
    ensures exists i :: (0 <= i < |blocks| && RoleOf(img, blocks[i]) == CaptionRole
      && blocks[i].text == CaptionOf(img, blocks).value
      && forall j :: i < j < |blocks| ==> RoleOf(img, blocks[j]) != CaptionRole)
  {
    var i := CaptionWitness(img, blocks);
  }

  /** Number of blocks that have role `role` for the image. */
  function CountRole(img: BBox, blocks: seq<TextBlock>, role: Role): nat
    decreases |blocks|
  {
    if blocks == [] then 0
    else CountRole(img, blocks[..|blocks| - 1], role) + (if RoleOf(img, Last(blocks)) == role then 1 else 0)
  }

  /** Each block lands in exactly one of caption candidate, nearby text or
      ignored, at most once: the nearby list has one entry per nearby-role block. */
  lemma {:induction false} EachBlockOneRole(img: BBox, blocks: seq<TextBlock>)
    ensures |NearbyOf(img, blocks)| == CountRole(img, blocks, NearbyRole)
    ensures |NearbyOf(img, blocks)| + CountRole(img, blocks, CaptionRole)
      + CountRole(img, blocks, Ignored) == |blocks|
    decreases |blocks|
  {
    if blocks != [] {
      EachBlockOneRole(img, blocks[..|blocks| - 1]);
    }
  }

  /** A block's contribution to the nearby list, as a function value. */
  function NearbyFn(img: BBox): TextBlock -> Option<string> {
    tb => if RoleOf(img, tb) == NearbyRole then Some(tb.text) else None
  }

  /** Positions of the nearby-role blocks, in input order. */
  function NearbySources(img: BBox, blocks: seq<TextBlock>): seq<nat> {
    Sources(NearbyFn(img), blocks)
  }

  /** The nearby list is the texts the blocks yield, one block at a time. */
  lemma {:induction false} NearbyAsKept(img: BBox, blocks: seq<TextBlock>)
    ensures NearbyOf(img, blocks) == Kept(NearbyFn(img), blocks)
    decreases |blocks|
  {
    if blocks != [] {
      NearbyAsKept(img, blocks[..|blocks| - 1]);
    }
  }

  /** Entry k of the nearby list is the text of the k-th nearby-role block:
      every nearby-role block contributes, once, in input order. */
  lemma NearbyInOrder(img: BBox, blocks: seq<TextBlock>)
    ensures |NearbyOf(img, blocks)| == |NearbySources(img, blocks)|
    ensures forall k, l :: 0 <= k < l < |NearbySources(img, blocks)| ==>
      NearbySources(img, blocks)[k] < NearbySources(img, blocks)[l]
    ensures forall k :: 0 <= k < |NearbySources(img, blocks)| ==>
      NearbySources(img, blocks)[k] < |blocks|
      && RoleOf(img, blocks[NearbySources(img, blocks)[k]]) == NearbyRole
      && blocks[NearbySources(img, blocks)[k]].text == NearbyOf(img, blocks)[k]
    ensures forall i :: 0 <= i < |blocks| && RoleOf(img, blocks[i]) == NearbyRole ==>
      i in NearbySources(img, blocks)
  {
    NearbyAsKept(img, blocks);
    KeptInOrder(NearbyFn(img), blocks);
  }

  /** `t` is the text of some nearby-role block. */
  predicate FromNearbyBlock(img: BBox, blocks: seq<TextBlock>, t: string) {
    exists i :: 0 <= i < |blocks| && RoleOf(img, blocks[i]) == NearbyRole && blocks[i].text == t
  }

  /** Every nearby text is the text of a nearby-role block. */
  lemma NearbyFromNearbyBlocks(img: BBox, blocks: seq<TextBlock>)
    ensures forall k :: 0 <= k < |NearbyOf(img, blocks)| ==> FromNearbyBlock(img, blocks, NearbyOf(img, blocks)[k])
  {
    NearbyInOrder(img, blocks);
    forall k | 0 <= k < |NearbyOf(img, blocks)|
      ensures FromNearbyBlock(img, blocks, NearbyOf(img, blocks)[k])
    {
      var i := NearbySources(img, blocks)[k];
      assert RoleOf(img, blocks[i]) == NearbyRole && blocks[i].text == NearbyOf(img, blocks)[k];
    }
  }

  /** The nearby list holds at most three texts: the first three matches in
      input order (a prefix of all matches, not the closest three). */
  lemma NearbyIsFirstThree(img: ImageBlock, blocks: seq<TextBlock>, page: int)
    requires img.pageNumber == page && OnPage(blocks, page) != []
    ensures var all := NearbyOf(img.bbox, OnPage(blocks, page));
      var nearby := NearbyText(img, blocks, page).1;
      |nearby| == (if |all| < MaxNearby then |all| else MaxNearby)
      && nearby == all[..|nearby|]
  {
  }

  /** Filtering to the page is idempotent. */
  lemma {:induction false} OnPageIdempotent(blocks: seq<TextBlock>, page: int)
    ensures OnPage(OnPage(blocks, page), page) == OnPage(blocks, page)
    decreases |blocks|
  {
    if blocks != [] {
      OnPageIdempotent(blocks[1..], page);
      var rest := OnPage(blocks[1..], page);
      if blocks[0].pageNumber == page {
        var r := [blocks[0]] + rest;
        assert OnPage(blocks, page) == r;
        assert r[0] == blocks[0] && r[1..] == rest;
        assert OnPage(r, page) == [blocks[0]] + OnPage(rest, page);
      } else {
        assert OnPage(blocks, page) == rest;
      }
    }
  }

  /** Blocks of other pages never matter: the result is the same whether
      they are passed or not. */
  lemma OtherPagesIgnored(img: ImageBlock, blocks: seq<TextBlock>, page: int)
    ensures NearbyText(img, blocks, page) == NearbyText(img, OnPage(blocks, page), page)
  {
    OnPageIdempotent(blocks, page);
  }

  lemma {:induction false} NoBlockOnPage(blocks: seq<TextBlock>, page: int)
    requires forall i :: 0 <= i < |blocks| ==> blocks[i].pageNumber != page
    ensures OnPage(blocks, page) == []
    decreases |blocks|
  {
    if blocks != [] {
      NoBlockOnPage(blocks[1..], page);
      assert blocks[0].pageNumber != page;
    }
  }

  /** An image with no text block on its page gets neither caption nor nearby text. */
  lemma NoTextNoFusion(img: ImageBlock, blocks: seq<TextBlock>, page: int)
    requires forall i :: 0 <= i < |blocks| ==> blocks[i].pageNumber != page
    ensures NearbyText(img, blocks, page) == (None, [])
  {
    NoBlockOnPage(blocks, page);
  }
}
