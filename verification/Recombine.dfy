/**
 The pretty printer's last pass: source text, extracted tags and decorations are merged into one
 list of HTML tokens. Positions count characters of the source; how a text chunk is rendered is
 not part of this model.
 */
module Recombine {
  import opened Options

  datatype TagAt = TagAt(pos: nat, html: string)
  datatype DecorationAt = DecorationAt(pos: nat, style: string)

  /** What is pushed to the output: a span is opened or closed, source[from..end], or a raw tag. */
  datatype Token = Open(style: string) | Close | Text(from: nat, end: nat) | Tag(html: string)

  /** What a reader of the page sees: a character of the source with its style, or a tag. */
  datatype Shown = Char(index: nat, style: Option<string>) | Raw(html: string)

  // ----- reading the tokens back

  datatype Reading = Reading(shown: seq<Shown>, open: Option<string>, empty: bool)

  function Chars(from: nat, end: nat, style: Option<string>): seq<Shown>
    requires from <= end
  {
    seq(end - from, k requires 0 <= k < end - from => Char(from + k, style))
  }

  /**
   The reading of tokens, or None if spans are nested, closed twice, left empty, wrapped around a
   tag, or if a text chunk is empty.
   */
  function Read(html: seq<Token>): Option<Reading> {
    if html == [] then Some(Reading([], None, false))
    else match Read(html[..|html| - 1])
      case None => None
      case Some(r) =>
        match html[|html| - 1]
        case Open(style) => if r.open.Some? then None else Some(Reading(r.shown, Some(style), true))
        case Close => if r.open.None? || r.empty then None else Some(Reading(r.shown, None, false))
        case Text(from, end) =>
          if from >= end then None else Some(Reading(r.shown + Chars(from, end, r.open), r.open, false))
        case Tag(t) => if r.open.Some? then None else Some(Reading(r.shown + [Raw(t)], None, false))
  }

  lemma ReadOne(html: seq<Token>, t: Token)
    ensures (html + [t])[..|html|] == html && (html + [t])[|html|] == t
  {
  }

  // ----- what the page should show

  predicate SortedTags(tags: seq<TagAt>, n: nat) {
    && (forall k :: 0 <= k < |tags| ==> tags[k].pos <= n)
    && (forall j, k :: 0 <= j < k < |tags| ==> tags[j].pos <= tags[k].pos)
  }

  predicate SortedDecorations(decs: seq<DecorationAt>, n: nat) {
    && (forall k :: 0 <= k < |decs| ==> decs[k].pos <= n)
    && (forall j, k :: 0 <= j < k < |decs| ==> decs[j].pos <= decs[k].pos)
  }

  /** An empty class name opens no span. */
  function Effective(style: Option<string>): Option<string> {
    if style == Some("") then None else style
  }

  /** The style of the last decoration at or before a character. */
  function StyleAt(decs: seq<DecorationAt>, index: nat): Option<string> {
    if decs == [] then None
    else if decs[|decs| - 1].pos <= index then Effective(Some(decs[|decs| - 1].style))
    else StyleAt(decs[..|decs| - 1], index)
  }

  /** The first i characters and k tags; a tag comes after as many characters as its position says. */
  function Woven(tags: seq<TagAt>, decs: seq<DecorationAt>, i: nat, k: nat): seq<Shown>
    requires k <= |tags|
    decreases i + k
  {
    if k > 0 && tags[k - 1].pos >= i then Woven(tags, decs, i, k - 1) + [Raw(tags[k - 1].html)]
    else if i > 0 then Woven(tags, decs, i - 1, k) + [Char(i - 1, StyleAt(decs, i - 1))]
    else []
  }

  /** What is left when the tags are taken out. */
  function WithoutTags(shown: seq<Shown>): seq<Shown> {
    if shown == [] then []
    else WithoutTags(shown[..|shown| - 1]) + if shown[|shown| - 1].Char? then [shown[|shown| - 1]] else []
  }

  /** The first i characters of the source, each in its style. */
  function StyledText(decs: seq<DecorationAt>, i: nat): (r: seq<Shown>)
    ensures |r| == i
  {
    if i == 0 then [] else StyledText(decs, i - 1) + [Char(i - 1, StyleAt(decs, i - 1))]
  }

  lemma OneMoreShown(v: seq<Shown>, x: Shown)
    ensures WithoutTags(v + [x]) == WithoutTags(v) + if x.Char? then [x] else []
  {
    assert (v + [x])[..|v|] == v;
  }

  /** The first k tags are in order and none is past i. */
  predicate TagsUpTo(tags: seq<TagAt>, i: nat, k: nat) {
    && k <= |tags|
    && (forall j :: 0 <= j < k ==> tags[j].pos <= i)
    && (forall j, m :: 0 <= j < m < k ==> tags[j].pos <= tags[m].pos)
  }

  /** Leaving out the tags gives every character of the source once, in order and styled. */
  lemma {:induction false} WovenChars(tags: seq<TagAt>, decs: seq<DecorationAt>, i: nat, k: nat)
    requires TagsUpTo(tags, i, k)
    ensures WithoutTags(Woven(tags, decs, i, k)) == StyledText(decs, i)
    ensures |Woven(tags, decs, i, k)| == i + k
    decreases i + k
  {
    if k > 0 && tags[k - 1].pos >= i {
      WovenChars(tags, decs, i, k - 1);
      OneMoreShown(Woven(tags, decs, i, k - 1), Raw(tags[k - 1].html));
    } else if i > 0 {
      WovenChars(tags, decs, i - 1, k);
      OneMoreShown(Woven(tags, decs, i - 1, k), Char(i - 1, StyleAt(decs, i - 1)));
    }
  }

  /** The decoration d is the last one at or before a character; none is if d is their number. */
  predicate Decorates(decs: seq<DecorationAt>, d: nat, index: nat) {
    && d <= |decs| && (d < |decs| ==> decs[d].pos <= index)
    && forall e :: (if d == |decs| then 0 else d + 1) <= e < |decs| ==> decs[e].pos > index
  }

  lemma {:induction false} StyleOfLast(decs: seq<DecorationAt>, d: nat, index: nat)
    requires Decorates(decs, d, index)
    ensures StyleAt(decs, index) == if d == |decs| || decs[d].style == "" then None else Some(decs[d].style)
    decreases |decs|
  {
    if decs != [] && d != |decs| - 1 {
      var front := decs[..|decs| - 1];
      assert decs[|decs| - 1].pos > index;
      StyleOfLast(front, if d == |decs| then |front| else d, index);
    }
  }

  lemma {:induction false} StyledChar(decs: seq<DecorationAt>, i: nat, index: nat)
    requires index < i
    ensures StyledText(decs, i)[index] == Char(index, StyleAt(decs, index))
  {
    if index < i - 1 { StyledChar(decs, i - 1, index); }
  }

  /** Every character is shown in the style of its decoration if that has a name, and in none otherwise. */
  lemma WovenStyle(tags: seq<TagAt>, decs: seq<DecorationAt>, i: nat, k: nat, index: nat, d: nat)
    requires TagsUpTo(tags, i, k) && index < i && Decorates(decs, d, index)
    ensures var chars := WithoutTags(Woven(tags, decs, i, k));
      && |chars| == i && chars[index].Char? && chars[index].index == index
      && (chars[index].style == None <==> d == |decs| || decs[d].style == "")
      && forall s :: chars[index].style == Some(s) <==> d < |decs| && decs[d].style == s && s != ""
  {
    WovenChars(tags, decs, i, k);
    StyledChar(decs, i, index);
    StyleOfLast(decs, d, index);
  }

  /** At p stands the tag, after so many characters. */
  predicate TagStands(w: seq<Shown>, p: nat, tag: TagAt) {
    p < |w| && w[p] == Raw(tag.html) && |WithoutTags(w[..p])| == tag.pos
  }

  lemma TagStep(v: seq<Shown>, x: Shown, p: nat, tag: TagAt)
    requires TagStands(v, p, tag) || (p == |v| && x == Raw(tag.html) && |WithoutTags(v)| == tag.pos)
    ensures TagStands(v + [x], p, tag)
  {
    assert (v + [x])[..p] == v[..p];
    assert v[..|v|] == v;
  }

  /** The k-th tag stands where exactly its position's count of characters and k tags precede it. */
  lemma {:induction false} WovenTag(tags: seq<TagAt>, decs: seq<DecorationAt>, i: nat, k: nat, t: nat)
    requires TagsUpTo(tags, i, k) && t < k
    ensures TagStands(Woven(tags, decs, i, k), tags[t].pos + t, tags[t])
    decreases i + k
  {
    assert tags[t].pos <= tags[k - 1].pos;
    if tags[k - 1].pos >= i {
      WovenChars(tags, decs, i, k - 1);
      if t < k - 1 { WovenTag(tags, decs, i, k - 1, t); }
      TagStep(Woven(tags, decs, i, k - 1), Raw(tags[k - 1].html), tags[t].pos + t, tags[t]);
    } else {
      WovenTag(tags, decs, i - 1, k, t);
      TagStep(Woven(tags, decs, i - 1, k), Char(i - 1, StyleAt(decs, i - 1)), tags[t].pos + t, tags[t]);
    }
  }

  // ----- stretches of text

  /** All decorations from d on start at or after end, all before d at or before from. */
  predicate Between(decs: seq<DecorationAt>, d: nat, from: nat, end: nat) {
    && d <= |decs|
    && (forall k :: 0 <= k < d ==> decs[k].pos <= from)
    && (forall k :: d <= k < |decs| ==> decs[k].pos >= end)
  }

  function StyleBefore(decs: seq<DecorationAt>, d: nat): Option<string>
    requires d <= |decs|
  {
    if d == 0 then None else Some(decs[d - 1].style)
  }

  lemma {:induction false} StyleOfStretch(decs: seq<DecorationAt>, d: nat, index: nat)
    requires Between(decs, d, index, index + 1)
    ensures StyleAt(decs, index) == Effective(StyleBefore(decs, d))
    decreases |decs| - d
  {
    StyleOfPrefix(decs, d, |decs|, index);
    assert decs[..|decs|] == decs;
  }

  lemma {:induction false} StyleOfPrefix(decs: seq<DecorationAt>, d: nat, n: nat, index: nat)
    requires d <= n <= |decs| && Between(decs, d, index, index + 1)
    ensures StyleAt(decs[..n], index) == Effective(StyleBefore(decs, d))
    decreases n
  {
    if n > d {
      assert decs[..n][..n - 1] == decs[..n - 1];
      StyleOfPrefix(decs, d, n - 1, index);
    }
  }

  lemma {:induction false} WovenStretch(tags: seq<TagAt>, decs: seq<DecorationAt>, from: nat, end: nat, k: nat, d: nat)
    requires from <= end && k <= |tags| && (k > 0 ==> tags[k - 1].pos <= from)
    requires Between(decs, d, from, end)
    ensures Woven(tags, decs, end, k) == Woven(tags, decs, from, k) + Chars(from, end, Effective(StyleBefore(decs, d)))
    decreases end
  {
    var style := Effective(StyleBefore(decs, d));
    if from < end {
      WovenStretch(tags, decs, from, end - 1, k, d);
      StyleOfStretch(decs, d, end - 1);
      WovenOne(tags, decs, end, k);
      OneMoreChar(from, end, style, Woven(tags, decs, from, k));
    } else {
      assert Chars(from, end, style) == [];
    }
  }

  lemma WovenOne(tags: seq<TagAt>, decs: seq<DecorationAt>, i: nat, k: nat)
    requires k <= |tags| && i > 0 && (k > 0 ==> tags[k - 1].pos < i)
    ensures Woven(tags, decs, i, k) == Woven(tags, decs, i - 1, k) + [Char(i - 1, StyleAt(decs, i - 1))]
  {
  }

  lemma OneMoreChar(from: nat, end: nat, style: Option<string>, before: seq<Shown>)
    requires from < end
    ensures before + Chars(from, end, style) == (before + Chars(from, end - 1, style)) + [Char(end - 1, style)]
  {
    assert Chars(from, end, style) == Chars(from, end - 1, style) + [Char(end - 1, style)];
  }

  // ----- the pass itself

  class Recombiner {
    const source: string
    var html: seq<Token>
    var outputIdx: nat
    var openDecoration: Option<string>
    var currentDecoration: Option<string>

    constructor (source: string)
      ensures this.source == source && html == [] && outputIdx == 0
      ensures openDecoration == None && currentDecoration == None
    {
      this.source := source;
      html, outputIdx, openDecoration, currentDecoration := [], 0, None, None;
    }

    /** The output so far reads well and shows this; an open span is the one that is remembered. */
    ghost predicate Shows(shown: seq<Shown>)
      reads this
    {
      Read(html) == Some(Reading(shown, openDecoration, false)) && openDecoration != Some("")
    }

    method CloseSpan(ghost shown: seq<Shown>)
      requires Shows(shown)
      modifies this`html, this`openDecoration
      ensures Shows(shown) && openDecoration == None
    {
      if openDecoration.Some? {
        ReadOne(html, Close);
        html := html + [Close];
        openDecoration := None;
      }
    }

    /** Closes a span of another style and opens one of the current style, which may still be empty. */
    method SwitchSpan(ghost shown: seq<Shown>) returns (ghost empty: bool)
      requires Shows(shown)
      modifies this`html, this`openDecoration
      ensures openDecoration == Effective(currentDecoration) && openDecoration != Some("")
      ensures Read(html) == Some(Reading(shown, openDecoration, empty))
    {
      empty := false;
      if openDecoration.Some? && openDecoration != currentDecoration {
        CloseSpan(shown);
      }
      if openDecoration.None? && Effective(currentDecoration).Some? {
        openDecoration := currentDecoration;
        ReadOne(html, Open(openDecoration.value));
        html := html + [Open(openDecoration.value)];
        empty := true;
      }
    }

    /** emitTextUpTo: opens and closes spans as needed and writes the text up to an index. */
    method EmitTextUpTo(sourceIdx: nat, ghost shown: seq<Shown>)
      requires Shows(shown)
      modifies this`html, this`outputIdx, this`openDecoration
      ensures outputIdx == if sourceIdx > old(outputIdx) then sourceIdx else old(outputIdx)
      ensures Shows(shown + Chars(old(outputIdx), outputIdx, Effective(currentDecoration)))
    {
      if sourceIdx > outputIdx {
        ghost var empty := SwitchSpan(shown);
        ReadOne(html, Text(outputIdx, sourceIdx));
        html := html + [Text(outputIdx, sourceIdx)];
        outputIdx := sourceIdx;
      } else {
        assert shown + Chars(outputIdx, outputIdx, Effective(currentDecoration)) == shown;
      }
    }

    /** The branch for a tag: text up to it, no span left open, then the tag. */
    method EmitTag(tag: TagAt, ghost shown: seq<Shown>)
      requires Shows(shown)
      modifies this`html, this`outputIdx, this`openDecoration
      ensures outputIdx == if tag.pos > old(outputIdx) then tag.pos else old(outputIdx)
      ensures Shows(shown + Chars(old(outputIdx), outputIdx, Effective(currentDecoration)) + [Raw(tag.html)])
      ensures openDecoration == None
    {
      ghost var from := outputIdx;
      EmitTextUpTo(tag.pos, shown);
      CloseSpan(shown + Chars(from, outputIdx, Effective(currentDecoration)));
      ReadOne(html, Tag(tag.html));
      html := html + [Tag(tag.html)];
    }

    /** The state of the pass when this many tags and decorations have been taken. */
    ghost predicate Taken(tags: seq<TagAt>, decs: seq<DecorationAt>, tagPos: nat, decPos: nat)
      reads this
    {
      && tagPos <= |tags| && decPos <= |decs| && outputIdx <= |source|
      && Shows(Woven(tags, decs, outputIdx, tagPos))
      && currentDecoration == StyleBefore(decs, decPos)
      && Between(decs, decPos, outputIdx, outputIdx)
      && (forall k :: 0 <= k < tagPos ==> tags[k].pos <= outputIdx)
      && (forall k :: tagPos <= k < |tags| ==> tags[k].pos >= outputIdx)
    }

    /** The branch for a tag that stands before or at the next decoration. */
    method TakeTag(tags: seq<TagAt>, decs: seq<DecorationAt>, tagPos: nat, ghost decPos: nat)
      requires SortedTags(tags, |source|) && SortedDecorations(decs, |source|)
      requires Taken(tags, decs, tagPos, decPos) && tagPos < |tags|
      requires decPos < |decs| ==> tags[tagPos].pos <= decs[decPos].pos
      modifies this`html, this`outputIdx, this`openDecoration
      ensures Taken(tags, decs, tagPos + 1, decPos)
    {
      ghost var from := outputIdx;
      EmitTag(tags[tagPos], Woven(tags, decs, from, tagPos));
      assert outputIdx == tags[tagPos].pos;
      WovenStretch(tags, decs, from, outputIdx, tagPos, decPos);
    }

    /** The branch for a decoration that stands before the next tag. */
    method TakeDecoration(tags: seq<TagAt>, decs: seq<DecorationAt>, ghost tagPos: nat, decPos: nat)
      requires SortedTags(tags, |source|) && SortedDecorations(decs, |source|)
      requires Taken(tags, decs, tagPos, decPos) && decPos < |decs|
      requires tagPos < |tags| ==> decs[decPos].pos < tags[tagPos].pos
      modifies this
      ensures Taken(tags, decs, tagPos, decPos + 1)
    {
      ghost var from := outputIdx;
      EmitTextUpTo(decs[decPos].pos, Woven(tags, decs, from, tagPos));
      assert outputIdx == decs[decPos].pos;
      WovenStretch(tags, decs, from, outputIdx, tagPos, decPos);
      currentDecoration := Some(decs[decPos].style);
    }

    /** recombineTagsAndDecorations */
    method Recombine(extractedTags: seq<TagAt>, decorations: seq<DecorationAt>)
      requires SortedTags(extractedTags, |source|) && SortedDecorations(decorations, |source|)
      requires html == [] && outputIdx == 0 && openDecoration == None && currentDecoration == None
      modifies this
      ensures Read(html) == Some(Reading(Woven(extractedTags, decorations, |source|, |extractedTags|), None, false))
    {
      var tagPos: nat, decPos: nat := 0, 0;
      while true
        invariant Taken(extractedTags, decorations, tagPos, decPos)
        decreases |extractedTags| - tagPos + |decorations| - decPos
      {
        var outputTag := tagPos < |extractedTags|
          && (decPos < |decorations| ==> extractedTags[tagPos].pos <= decorations[decPos].pos);
        if outputTag {
          TakeTag(extractedTags, decorations, tagPos, decPos);
          tagPos := tagPos + 1;
        } else if decPos < |decorations| {
          TakeDecoration(extractedTags, decorations, tagPos, decPos);
          decPos := decPos + 1;
        } else {
          break;
        }
      }
      ghost var from := outputIdx;
      EmitTextUpTo(|source|, Woven(extractedTags, decorations, from, tagPos));
      WovenStretch(extractedTags, decorations, from, outputIdx, tagPos, decPos);
      CloseSpan(Woven(extractedTags, decorations, |source|, |extractedTags|));
    }
  }
}
