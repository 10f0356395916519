/** `parseTags`: how the `tag` field of a news payload becomes the tags that
    are validated, stored and returned. */
module Tags {
  import opened JsValues
  import opened Text

  /** `JSON.parse` applied to a string: the parsed value, or None when it
      throws. It is a parameter of the model, not defined here. */
  type JsonParse = string -> Option<Value>

  /** `.map((t) => t.trim())` */
  function TrimEach(pieces: seq<string>): (r: seq<string>)
    ensures |r| == |pieces|
    ensures forall i :: 0 <= i < |r| ==> r[i] == Trim(pieces[i])
  {
    seq(|pieces|, i requires 0 <= i < |pieces| => Trim(pieces[i]))
  }

  /** `.filter(Boolean)` on strings: keeps the non-empty ones, in order. */
  function DropEmpty(xs: seq<string>): (r: seq<string>)
    ensures |r| <= |xs|
    ensures forall i :: 0 <= i < |r| ==> r[i] != "" && r[i] in xs
  {
    if xs == [] then []
    else (if xs[0] == "" then [] else [xs[0]]) + DropEmpty(xs[1..])
  }

  lemma DropEmptyAppend(xs: seq<string>, ys: seq<string>)
    ensures DropEmpty(xs + ys) == DropEmpty(xs) + DropEmpty(ys)
  {
    if xs != [] {
      assert (xs + ys)[1..] == xs[1..] + ys;
      DropEmptyAppend(xs[1..], ys);
    } else {
      assert xs + ys == ys;
    }
  }

  /** The fallback of parseTags: split on ',', trim each piece and drop the
      empty ones. */
  function SplitTags(s: string): (r: seq<string>)
    ensures |r| <= |Split(s, ',')|
  {
    DropEmpty(TrimEach(Split(s, ',')))
  }

  /** Every tag the fallback yields is non-empty, already trimmed and free
      of commas. */
  lemma SplitTagsClean(s: string)
    ensures forall i :: 0 <= i < |SplitTags(s)| ==>
      var t := SplitTags(s)[i];
      t != "" && Trim(t) == t && ',' !in t
  {
    var pieces := Split(s, ',');
    var r := SplitTags(s);
    forall i | 0 <= i < |r| ensures Trim(r[i]) == r[i] && ',' !in r[i] {
      var k :| 0 <= k < |pieces| && r[i] == Trim(pieces[k]);
      TrimIdempotent(pieces[k]);
      TrimInside(pieces[k]);
    }
  }

  /** Filtering leaves nothing exactly when every string was empty. */
  lemma {:induction false} DropEmptyNil(xs: seq<string>)
    ensures DropEmpty(xs) == [] <==> forall k :: 0 <= k < |xs| ==> xs[k] == ""
  {
    if xs != [] {
      DropEmptyNil(xs[1..]);
      assert forall k :: 1 <= k < |xs| ==> xs[k] == xs[1..][k - 1];
    }
  }

  /** The fallback yields no tag exactly when every comma-separated piece is
      blank. */
  lemma SplitTagsNone(s: string)
    ensures SplitTags(s) == [] <==>
      forall k :: 0 <= k < |Split(s, ',')| ==> AllSpace(Split(s, ',')[k])
  {
    var pieces := Split(s, ',');
    var trimmed := TrimEach(pieces);
    assert SplitTags(s) == DropEmpty(trimmed);
    DropEmptyNil(trimmed);
    forall k | 0 <= k < |pieces| ensures trimmed[k] == "" <==> AllSpace(pieces[k]) {
      TrimBlank(pieces[k]);
    }
    if SplitTags(s) != [] {
      var k :| 0 <= k < |trimmed| && trimmed[k] != "";
      assert !AllSpace(pieces[k]);
      assert k < |Split(s, ',')| && !AllSpace(Split(s, ',')[k]);
    } else {
      forall k | 0 <= k < |pieces| ensures AllSpace(pieces[k]) {
        assert trimmed[k] == "";
      }
    }
  }

  /** A text without commas is at most one tag: itself, trimmed. */
  lemma SplitTagsOne(s: string)
    requires ',' !in s
    ensures SplitTags(s) == if Trim(s) == "" then [] else [Trim(s)]
  {
    SplitNoSep(s, ',');
    assert TrimEach([s]) == [Trim(s)];
  }

  lemma TrimEachAppend(xs: seq<string>, ys: seq<string>)
    ensures TrimEach(xs + ys) == TrimEach(xs) + TrimEach(ys)
  {
  }

  /** The tags of `a + "," + b` are those of `a` followed by those of `b`. */
  lemma SplitTagsCons(a: string, b: string)
    requires ',' !in a
    ensures SplitTags(a + "," + b) == SplitTags(a) + SplitTags(b)
  {
    var pieces := Split(b, ',');
    SplitCons(a, ',', b);
    SplitNoSep(a, ',');
    calc {
      SplitTags(a + "," + b);
      DropEmpty(TrimEach([a] + pieces));
      { TrimEachAppend([a], pieces); }
      DropEmpty(TrimEach([a]) + TrimEach(pieces));
      { DropEmptyAppend(TrimEach([a]), TrimEach(pieces)); }
      DropEmpty(TrimEach([a])) + DropEmpty(TrimEach(pieces));
    }
  }

  /** The values of a list of strings, as a JavaScript array holds them. */
  function StrArray(xs: seq<string>): (r: Value)
    ensures r.Arr? && |r.elems| == |xs|
    ensures forall i :: 0 <= i < |xs| ==> r.elems[i] == Str(xs[i])
  {
    Arr(seq(|xs|, i requires 0 <= i < |xs| => Str(xs[i])))
  }

  /** `parseTags(tag)`: a falsy value gives the empty array; an array is
      returned as it is; anything else is coerced to a string and given to
      JSON.parse, and when that throws, split into comma-separated tags. */
  function ParseTags(tag: Value, parse: JsonParse): (r: Value)
    ensures !Truthy(tag) ==> r == Arr([])
    ensures tag.Arr? ==> r == tag
    ensures Truthy(tag) && !tag.Arr? && parse(StringOf(tag)).Some? ==> r == parse(StringOf(tag)).value
  {
    if !Truthy(tag) then Arr([])
    else if tag.Arr? then tag
    else
      match parse(StringOf(tag))
      case Some(v) => v
      case None => StrArray(SplitTags(StringOf(tag)))
  }

  /** When JSON.parse throws, the result is an array of the comma-separated
      pieces, each non-empty, trimmed and free of commas. */
  lemma ParseTagsFallback(tag: Value, parse: JsonParse)
    requires Truthy(tag) && !tag.Arr? && parse(StringOf(tag)).None?
    ensures ParseTags(tag, parse) == StrArray(SplitTags(StringOf(tag)))
    ensures var r := ParseTags(tag, parse);
      forall i :: 0 <= i < |r.elems| ==>
        r.elems[i].Str? && r.elems[i].s != "" && Trim(r.elems[i].s) == r.elems[i].s && ',' !in r.elems[i].s
  {
    SplitTagsClean(StringOf(tag));
  }

  /** A blank piece before a comma contributes no tag. */
  lemma BlankPieceDropped(a: string, b: string)
    requires ',' !in a && AllSpace(a)
    ensures SplitTags(a + "," + b) == SplitTags(b)
  {
    SplitTagsCons(a, b);
    SplitTagsOne(a);
    TrimBlank(a);
  }

  /** A trimmed, non-empty piece before a comma is the first tag. */
  lemma WordPieceKept(a: string, b: string)
    requires ',' !in a && a != "" && Trim(a) == a
    ensures SplitTags(a + "," + b) == [a] + SplitTags(b)
  {
    SplitTagsCons(a, b);
    SplitTagsOne(a);
  }

  /** The shape of `"x, ,y"`: a text that is not JSON falls back to the
      comma split, and the blank middle piece is dropped, leaving the two
      one-character tags. */
  lemma SplitTagsExample(x: char, sp: char, y: char, parse: JsonParse)
    requires x != ',' && y != ',' && !IsSpace(x) && !IsSpace(y) && IsSpace(sp)
    requires parse([x, ',', sp, ',', y]).None?
    ensures ParseTags(Str([x, ',', sp, ',', y]), parse) == Arr([Str([x]), Str([y])])
  {
    SplitTagsExampleText(x, sp, y);
    assert StringOf(Str([x, ',', sp, ',', y])) == [x, ',', sp, ',', y];
  }

  /** The comma split of `"x, ,y"`. */
  lemma SplitTagsExampleText(x: char, sp: char, y: char)
    requires x != ',' && y != ',' && !IsSpace(x) && !IsSpace(y) && IsSpace(sp)
    ensures SplitTags([x, ',', sp, ',', y]) == [[x], [y]]
  {
    TrimOneChar(x);
    SplitTagsBlankThenWord(sp, y);
    WordPieceKept([x], [sp, ',', y]);
    assert [x] + "," + [sp, ',', y] == [x, ',', sp, ',', y];
  }

  /** The comma split of `" ,y"`. */
  lemma SplitTagsBlankThenWord(sp: char, y: char)
    requires y != ',' && !IsSpace(y) && IsSpace(sp)
    ensures SplitTags([sp, ',', y]) == [[y]]
  {
    TrimOneChar(y);
    SplitTagsOne([y]);
    assert AllSpace([sp]);
    BlankPieceDropped([sp], [y]);
    assert [sp] + "," + [y] == [sp, ',', y];
  }

  /** A JSON scalar is not turned into a list: `"5"` parses to the number 5,
      which parseTags hands on unchanged. */
  lemma ScalarTagIsKept(parse: JsonParse)
    requires parse("5") == Some(Num(5))
    ensures ParseTags(Str("5"), parse) == Num(5)
  {
  }
}
