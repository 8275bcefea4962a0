/**
 Extraction of the BehaviorSpace experiments from a `.nlogo` model file: the
 text between `<experiments>` and `</experiments>` is cut out of the
 surrounding non-XML model text and re-wrapped, block by block.
 */
module Extraction {
  import opened Text

  const Open: string := "<experiments>"
  const Close: string := "</experiments>"

  /** One re-wrapped block: the piece's text up to its first closing tag, between the two tags, plus a newline. */
  function Fragment(piece: string): string
  {
    Open + Split(piece, Close)[0] + Close + "\n"
  }

  /**
   What a fragment holds: the opening tag, then a prefix of the piece that
   has no closing tag and is followed in the piece by a closing tag unless it
   is the whole piece, then the closing tag and a newline.
   */
  lemma FragmentShape(piece: string)
    ensures var r := Fragment(piece);
      && |r| > |Open| + |Close|
      && r[..|Open|] == Open && r[|r| - |Close| - 1..] == Close + "\n"
      && var m := r[|Open|..|r| - |Close| - 1];
      && |m| <= |piece| && piece[..|m|] == m && !Contains(m, Close)
      && (|m| < |piece| ==> OccursAt(piece, Close, |m|))
  {
    var m := Split(piece, Close)[0];
    SplitFirstPiece(piece, Close);
    Wrapped(m);
  }

  /** The parts of a wrapped block can be read back off it. */
  lemma Wrapped(m: string)
    ensures var r := Open + m + Close + "\n";
      && r[..|Open|] == Open && r[|r| - |Close| - 1..] == Close + "\n"
      && r[|Open|..|r| - |Close| - 1] == m
  {
    var r := Open + m + Close + "\n";
    assert r[|Open|..|r| - |Close| - 1] == m;
    assert r[|r| - |Close| - 1..] == Close + "\n";
  }

  /** The fragments of all pieces, concatenated in order. */
  function Fragments(pieces: seq<string>): (r: string)
    ensures |r| == 0 <==> |pieces| == 0
  {
    if |pieces| == 0 then "" else Fragment(pieces[0]) + Fragments(pieces[1..])
  }

  /** The fragments of two runs of pieces are those of each, one after the other. */
  lemma {:induction false} FragmentsAppend(a: seq<string>, b: seq<string>)
    ensures Fragments(a + b) == Fragments(a) + Fragments(b)
    decreases |a|
  {
    if |a| > 0 {
      assert (a + b)[1..] == a[1..] + b;
      FragmentsAppend(a[1..], b);
    } else {
      assert a + b == b;
    }
  }

  /**
   The experiments XML read from a model file: for every piece that follows
   an opening tag, that piece up to its first closing tag, re-wrapped.  A
   text without an opening tag gives the empty string.
   */
  function ExtractExperiments(text: string): (r: string)
    ensures r == "" <==> !Contains(text, Open)
  {
    Fragments(Split(text, Open)[1..])
  }

  /** `p` starts with `<` and has no other `<`, as both tags do. */
  predicate OnlyLeadingAngle(p: string) {
    |p| > 0 && p[0] == '<' && forall m :: 0 < m < |p| ==> p[m] != '<'
  }

  lemma TagsHaveOnlyLeadingAngle()
    ensures OnlyLeadingAngle(Open) && OnlyLeadingAngle(Close)
  {
  }

  /**
   A pattern with a single leading `<` cannot start in `a` and run on into a
   `b` that starts with `<`: no occurrence starts inside `a` unless `a`
   contains the pattern itself.
   */
  lemma NoOccurrenceAcross(a: string, b: string, p: string)
    requires OnlyLeadingAngle(p) && !Contains(a, p)
    requires |b| > 0 && b[0] == '<'
    ensures forall k: nat :: k < |a| ==> !OccursAt(a + b, p, k)
  {
    forall k: nat | k < |a|
      ensures !OccursAt(a + b, p, k)
    {
      if k + |p| <= |a| {
        OccursAtPrefix(a, b, p, k);
      } else if k + |p| <= |a + b| {
        assert (a + b)[k..k + |p|][|a| - k] == b[0] == '<';
        assert p[|a| - k] != '<';
      }
    }
  }

  /** The opening tag cannot start inside a closing tag. */
  lemma NoOpenInsideClose(rest: string)
    ensures forall j: nat :: j < |Close| ==> !OccursAt(Close + rest, Open, j)
  {
    TagsHaveOnlyLeadingAngle();
    forall j: nat | j < |Close|
      ensures !OccursAt(Close + rest, Open, j)
    {
      if j + |Open| <= |Close + rest| {
        var window := (Close + rest)[j..j + |Open|];
        if j == 0 {
          assert window[1] == '/' != Open[1];
        } else {
          assert window[0] == Close[j] != Open[0];
        }
      }
    }
  }

  /** Before the first opening tag lies `pre`; the later pieces are those of what follows that tag. */
  lemma SplitAtFirstOpen(pre: string, x: string)
    requires !Contains(pre, Open)
    ensures Split(pre + Open + x, Open)[1..] == Split(x, Open)
  {
    TagsHaveOnlyLeadingAngle();
    assert pre + Open + x == pre + (Open + x);
    NoOccurrenceAcross(pre, Open + x, Open);
    SplitSkip(pre, Open + x, Open);
    SplitLeading(Open, x);
  }

  /**
   Peeling the first opening tag off the front, whatever follows it: the
   result starts with the fragment of the text after that tag, cut at its
   next opening tag, followed by the extraction of that text.  A nested
   opening tag thus ends a block early, and a block without a closing tag
   runs to the next opening tag or the end of the text.
   */
  lemma ExtractStep(pre: string, x: string)
    requires !Contains(pre, Open)
    ensures ExtractExperiments(pre + Open + x) == Fragment(Split(x, Open)[0]) + ExtractExperiments(x)
  {
    SplitAtFirstOpen(pre, x);
    var pieces := Split(x, Open);
    assert pieces == [pieces[0]] + pieces[1..];
  }

  /** A block that is never closed is closed at the end of the text. */
  lemma ExtractUnterminated(pre: string, body: string)
    requires !Contains(pre, Open)
    requires !Contains(body, Open) && !Contains(body, Close)
    ensures ExtractExperiments(pre + Open + body) == Open + body + Close + "\n"
  {
    ExtractStep(pre, body);
    assert Split(body, Open) == [body] by {
      var r := Split(body, Open);
      assert |r| == 1 && Join(r, Open) == r[0];
    }
    var c := Split(body, Close);
    assert |c| == 1 && Join(c, Close) == c[0];
  }

  /** A block body and its closing tag hold no opening tag, so they join the first piece of what follows. */
  lemma SplitBlock(body: string, rest: string)
    requires !Contains(body, Open)
    ensures Split(body + Close + rest, Open)
         == [body + Close + Split(rest, Open)[0]] + Split(rest, Open)[1..]
  {
    TagsHaveOnlyLeadingAngle();
    NoOccurrenceAcross(body, Close + rest, Open);
    NoOpenInsideClose(rest);
    forall k: nat | k < |body + Close|
      ensures !OccursAt((body + Close) + rest, Open, k)
    {
      assert (body + Close) + rest == body + (Close + rest);
      if k >= |body| {
        OccursAtShift(body, Close + rest, Open, k - |body|);
      }
    }
    SplitSkip(body + Close, rest, Open);
  }

  /** A piece whose body holds no closing tag is cut at the closing tag right after that body. */
  lemma FragmentOfBlock(body: string, tail: string)
    requires !Contains(body, Close)
    ensures Fragment(body + Close + tail) == Open + body + Close + "\n"
  {
    TagsHaveOnlyLeadingAngle();
    assert body + Close + tail == body + (Close + tail);
    NoOccurrenceAcross(body, Close + tail, Close);
    SplitSkip(body, Close + tail, Close);
    SplitLeading(Close, tail);
  }

  /**
   Peeling one block off the front: when the text before the first opening
   tag has no opening tag and the block body has neither tag, the result is
   that block re-wrapped followed by the extraction of the rest.
   */
  lemma ExtractCons(pre: string, body: string, rest: string)
    requires !Contains(pre, Open)
    requires !Contains(body, Open) && !Contains(body, Close)
    ensures ExtractExperiments(pre + Open + body + Close + rest)
         == Open + body + Close + "\n" + ExtractExperiments(rest)
  {
    var x := body + Close + rest;
    var pieces := Split(rest, Open);
    assert pre + Open + body + Close + rest == pre + Open + x;
    assert ExtractExperiments(pre + Open + x) == Fragment(Split(x, Open)[0]) + ExtractExperiments(x) by {
      ExtractStep(pre, x);
    }
    assert Split(x, Open) == [body + Close + pieces[0]] + pieces[1..] by {
      SplitBlock(body, rest);
    }
    assert Fragment(Split(x, Open)[0]) == Open + body + Close + "\n" by {
      FragmentOfBlock(body, pieces[0]);
    }
    assert ExtractExperiments(x) == ExtractExperiments(rest) by {
      assert Split(x, Open)[1..] == pieces[1..];
    }
  }

  /** A model file holding a single experiments block yields exactly that block. */
  lemma ExtractSingleBlock(pre: string, body: string, post: string)
    requires !Contains(pre, Open) && !Contains(post, Open)
    requires !Contains(body, Open) && !Contains(body, Close)
    ensures ExtractExperiments(pre + Open + body + Close + post) == Open + body + Close + "\n"
  {
    ExtractCons(pre, body, post);
  }
}
