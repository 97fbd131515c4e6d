/**
 * `extractArtifacts`: the `<antArtifact …>…</antArtifact>` blocks of one
 * message text, in document order, each with its title, its language and
 * its trimmed content.
 *
 * The global regular expression `<antArtifact[^>]*>([\s\S]*?)<\/antArtifact>`
 * is given its meaning by `IsMatch`, and is run by the scanner `NextMatch`,
 * which is proved to find exactly the leftmost match the regular expression
 * engine would find.
 */
module Extraction {
  import opened Maybe
  import opened Text

  const OpenTag := "<antArtifact"
  const CloseTag := "</antArtifact>"
  const TitleKey := "title=\""
  const LanguageKey := "language=\""

  /** One extracted block. */
  datatype Artifact = Artifact(title: string, language: string, content: string)

  /**
   * The positions of one match: where `<antArtifact` starts, where the `>`
   * that closes the opening tag stands, and where `</antArtifact>` starts.
   */
  datatype Span = Span(open: nat, gt: nat, close: nat)
  {
    /** The index just past the closing tag: the regular expression's `lastIndex` after this match. */
    function End(): nat
    {
      close + |CloseTag|
    }
  }

  /**
   * `sp` is a match of the regular expression starting at `sp.open`: the
   * opening tag name, then characters other than `>` up to a `>` (`[^>]*>`),
   * then the shortest content (`[\s\S]*?`) followed by the closing tag.
   */
  ghost predicate IsMatch(text: string, sp: Span)
  {
    && OccursAt(text, OpenTag, sp.open)
    && sp.open + |OpenTag| <= sp.gt < |text| && text[sp.gt] == '>'
    && (forall k :: sp.open + |OpenTag| <= k < sp.gt ==> text[k] != '>')
    && sp.gt < sp.close && OccursAt(text, CloseTag, sp.close)
    && (forall k :: sp.gt < k < sp.close ==> !OccursAt(text, CloseTag, k))
  }

  /** A match is determined by where it starts. */
  lemma MatchUnique(text: string, a: Span, b: Span)
    requires IsMatch(text, a) && IsMatch(text, b) && a.open == b.open
    ensures a == b
  {
    assert text[a.gt] == '>' && text[b.gt] == '>';
    assert a.gt == b.gt;
    assert OccursAt(text, CloseTag, a.close) && OccursAt(text, CloseTag, b.close);
  }

  /** The three positions are in order and the match lies inside the text. */
  predicate WellFormed(text: string, sp: Span)
  {
    sp.open <= sp.gt < sp.close && sp.End() <= |text|
  }

  /** The leftmost match starting at or after `from`. */
  ghost predicate LeftmostFrom(text: string, from: nat, sp: Span)
  {
    && IsMatch(text, sp) && from <= sp.open
    && forall other :: IsMatch(text, other) && from <= other.open ==> sp.open <= other.open
  }

  /** No match starts at or after `from`. */
  ghost predicate NoMatchFrom(text: string, from: nat)
  {
    forall sp :: IsMatch(text, sp) ==> sp.open < from
  }

  /**
   * One call of `exec` on the global regular expression with `lastIndex` at
   * `from`: the leftmost match starting at or after `from`, or none at all.
   */
  function NextMatch(text: string, from: nat): (r: Option<Span>)
    ensures r.Some? ==> WellFormed(text, r.value) && from <= r.value.open
  {
    match IndexOf(text, OpenTag, from)
    case None => None
    case Some(p) =>
      match IndexOfChar(text, '>', p + |OpenTag|)
      case None => None
      case Some(g) =>
        match IndexOf(text, CloseTag, g + 1)
        case None => None
        case Some(c) => Some(Span(p, g, c))
  }

  /**
   * The scanner agrees with the regular expression: it finds the leftmost
   * match at or after `from`, and finds nothing only when there is none.
   */
  lemma NextMatchLeftmost(text: string, from: nat)
    ensures NextMatch(text, from).Some? ==> LeftmostFrom(text, from, NextMatch(text, from).value)
    ensures NextMatch(text, from).None? ==> NoMatchFrom(text, from)
  {
  }

  /**
   * The matches the `exec` loop visits from `lastIndex == from` on, in the
   * order it visits them: they start at or after `from` and do not overlap.
   */
  function Spans(text: string, from: nat): (r: seq<Span>)
    ensures forall i :: 0 <= i < |r| ==> WellFormed(text, r[i]) && from <= r[i].open
    decreases |text| - from
  {
    match NextMatch(text, from)
    case None => []
    case Some(sp) =>
      var rest := Spans(text, sp.End());
      SpansCons(text, from, sp, rest);
      [sp] + rest
  }

  /** A well-formed match at or after `from`, followed by well-formed matches after its end. */
  lemma SpansCons(text: string, from: nat, sp: Span, rest: seq<Span>)
    requires WellFormed(text, sp) && from <= sp.open
    requires forall i :: 0 <= i < |rest| ==> WellFormed(text, rest[i]) && sp.End() <= rest[i].open
    ensures forall i :: 0 <= i < |[sp] + rest| ==> WellFormed(text, ([sp] + rest)[i]) && from <= ([sp] + rest)[i].open
  {
    var r := [sp] + rest;
    forall i | 0 <= i < |r|
      ensures WellFormed(text, r[i]) && from <= r[i].open
    {
      if i > 0 {
        assert r[i] == rest[i - 1];
      }
    }
  }

  /** One `exec` that finds `sp` at `from`: the loop goes on from the end of `sp`. */
  lemma SpansStep(text: string, from: nat, sp: Span)
    requires NextMatch(text, from) == Some(sp)
    ensures Spans(text, from) == [sp] + Spans(text, sp.End())
  {
  }

  /** Where the loop's `i`-th `exec` starts: `from`, or the end of the match before. */
  function ResumeAt(spans: seq<Span>, i: nat, from: nat): nat
    requires i <= |spans|
  {
    if i == 0 then from else spans[i - 1].End()
  }

  /**
   * Each match the loop visits is the leftmost one at or after the end of the
   * match before it, or at or after `from` for the first one.
   */
  lemma {:induction false} SpansLeftmost(text: string, from: nat, i: nat)
    requires i < |Spans(text, from)|
    ensures LeftmostFrom(text, ResumeAt(Spans(text, from), i, from), Spans(text, from)[i])
    decreases |text| - from
  {
    var first := NextMatch(text, from).value;
    NextMatchLeftmost(text, from);
    if i > 0 {
      var r := Spans(text, from);
      var rest := Spans(text, first.End());
      SpansLeftmost(text, first.End(), i - 1);
      assert r[i] == rest[i - 1];
      assert ResumeAt(r, i, from) == ResumeAt(rest, i - 1, first.End()) by {
        if i > 1 {
          assert r[i - 1] == rest[i - 2];
        }
      }
    }
  }

  /** The matches the loop visits do not overlap: each starts at or after the end of the one before. */
  lemma SpansOrdered(text: string, from: nat, i: nat)
    requires 0 < i < |Spans(text, from)|
    ensures Spans(text, from)[i - 1].End() <= Spans(text, from)[i].open
  {
    SpansLeftmost(text, from, i);
  }

  /** The loop ends only when `exec` fails: no match starts at or after the end of the last one. */
  lemma {:induction false} SpansExhaustive(text: string, from: nat)
    ensures NoMatchFrom(text, ResumeAt(Spans(text, from), |Spans(text, from)|, from))
    decreases |text| - from
  {
    NextMatchLeftmost(text, from);
    match NextMatch(text, from)
    case None =>
    case Some(first) =>
      var r := Spans(text, from);
      var rest := Spans(text, first.End());
      SpansExhaustive(text, first.End());
      if rest != [] {
        assert r[|r| - 1] == rest[|rest| - 1];
      }
  }

  /** Position `pos` lies inside one of the matches `spans`. */
  ghost predicate Covers(spans: seq<Span>, pos: nat)
  {
    exists i :: 0 <= i < |spans| && spans[i].open <= pos < spans[i].End()
  }

  /** When a match starts at or after `from`, `exec` finds one, and it starts no later. */
  lemma FoundNoLater(text: string, from: nat, sp: Span)
    requires IsMatch(text, sp) && from <= sp.open
    ensures NextMatch(text, from).Some? && NextMatch(text, from).value.open <= sp.open
  {
    NextMatchLeftmost(text, from);
  }

  /**
   * Every match that starts at or after `from` is one of the matches the
   * loop visits, or starts strictly inside one of them.
   */
  lemma {:induction false} SpansComplete(text: string, from: nat, sp: Span)
    requires IsMatch(text, sp) && from <= sp.open
    ensures Covers(Spans(text, from), sp.open)
    decreases |text| - from
  {
    FoundNoLater(text, from, sp);
    var first := NextMatch(text, from).value;
    var rest := Spans(text, first.End());
    SpansStep(text, from, first);
    if first.End() <= sp.open {
      SpansComplete(text, first.End(), sp);
    }
    CoversCons(first, rest, sp.open);
  }

  /** A position is covered by `[first] + rest` when it lies in `first` or is covered by `rest`. */
  lemma CoversCons(first: Span, rest: seq<Span>, pos: nat)
    requires first.open <= pos < first.End() || Covers(rest, pos)
    ensures Covers([first] + rest, pos)
  {
    var r := [first] + rest;
    if first.open <= pos < first.End() {
      assert r[0] == first;
    } else {
      var j :| 0 <= j < |rest| && rest[j].open <= pos < rest[j].End();
      assert r[j + 1] == rest[j];
    }
  }

  /**
   * The text of a quoted attribute value starting at `start`: the longest run
   * of characters other than `"` (`[^"]*`), which stops at a `"` or at the end.
   */
  function ValueAt(s: string, start: nat): (r: string)
    requires start <= |s|
    ensures start + |r| <= |s| && r == s[start..start + |r|]
    ensures '"' !in r
    ensures start + |r| == |s| || s[start + |r|] == '"'
    decreases |s| - start
  {
    if start == |s| || s[start] == '"' then []
    else [s[start]] + ValueAt(s, start + 1)
  }

  /**
   * `fullTag.match(/key([^"]*)/)` for a key such as `title="`: the value after
   * the first occurrence of the key, or nothing when the key does not occur.
   */
  function AttrValue(s: string, key: string): (r: Option<string>)
    ensures r.None? ==> forall k :: !OccursAt(s, key, k)
    ensures r.Some? ==> exists i :: && OccursAt(s, key, i)
                                     && (forall k :: 0 <= k < i ==> !OccursAt(s, key, k))
                                     && r.value == ValueAt(s, i + |key|)
  {
    match IndexOf(s, key, 0)
    case None => None
    case Some(i) =>
      assert OccursAt(s, key, i);
      Some(ValueAt(s, i + |key|))
  }

  /** The value of an attribute, or `default` when the key does not occur. */
  function AttrOr(s: string, key: string, default: string): string
  {
    match AttrValue(s, key)
    case Some(v) => v
    case None => default
  }

  /**
   * The artifact one match yields. Title and language are looked up in the
   * whole matched text (opening tag, content and closing tag), and default
   * to "Untitled" and "txt"; the content is the text between the opening
   * tag's `>` and the closing tag, trimmed.
   */
  function ArtifactOf(text: string, sp: Span): Artifact
    requires WellFormed(text, sp)
  {
    var fullTag := text[sp.open..sp.End()];
    Artifact(AttrOr(fullTag, TitleKey, "Untitled"),
             AttrOr(fullTag, LanguageKey, "txt"),
             Trim(text[sp.gt + 1..sp.close]))
  }

  /** The artifacts the `exec` loop yields from `lastIndex == from` on, one per match, in document order. */
  function ArtifactsFrom(text: string, from: nat): seq<Artifact>
    decreases |text| - from
  {
    match NextMatch(text, from)
    case None => []
    case Some(sp) => [ArtifactOf(text, sp)] + ArtifactsFrom(text, sp.End())
  }

  /** What `extractArtifacts(text)` returns. */
  function ArtifactsIn(text: string): seq<Artifact>
  {
    ArtifactsFrom(text, 0)
  }

  /** One artifact for each match the loop visits, in the same order. */
  lemma {:induction false} ArtifactsMatchSpans(text: string, from: nat)
    ensures var a := ArtifactsFrom(text, from);
            var r := Spans(text, from);
            |a| == |r| && forall i :: 0 <= i < |a| ==> a[i] == ArtifactOf(text, r[i])
    decreases |text| - from
  {
    match NextMatch(text, from)
    case None =>
    case Some(first) =>
      var a := ArtifactsFrom(text, from);
      var r := Spans(text, from);
      ArtifactsMatchSpans(text, first.End());
      var restA := ArtifactsFrom(text, first.End());
      var restR := Spans(text, first.End());
      assert a == [ArtifactOf(text, first)] + restA;
      assert r == [first] + restR;
      forall i | 0 <= i < |a|
        ensures a[i] == ArtifactOf(text, r[i])
      {
        if i > 0 {
          assert a[i] == restA[i - 1] && r[i] == restR[i - 1];
        }
      }
  }

  /** `extractArtifacts`: the `exec` loop, with `lastIndex` advanced past each match. */
  method ExtractArtifacts(text: string) returns (artifacts: seq<Artifact>)
    ensures artifacts == ArtifactsIn(text)
  {
    artifacts := [];
    var lastIndex: nat := 0;
    while true
      invariant lastIndex <= |text|
      invariant artifacts + ArtifactsFrom(text, lastIndex) == ArtifactsIn(text)
      decreases |text| - lastIndex
    {
      var found := NextMatch(text, lastIndex);
      if found.None? {
        break;
      }
      var sp := found.value;
      var artifact := ArtifactOf(text, sp);
      ghost var rest := ArtifactsFrom(text, sp.End());
      ArtifactsStep(text, lastIndex, sp);
      AppendAssociative(artifacts, [artifact], rest);
      artifacts := artifacts + [artifact];
      lastIndex := sp.End();
    }
    assert artifacts + [] == artifacts;
  }

  /** One `exec` that finds `sp` at `from`: its artifact, then those from the end of `sp` on. */
  lemma ArtifactsStep(text: string, from: nat, sp: Span)
    requires NextMatch(text, from) == Some(sp)
    ensures ArtifactsFrom(text, from) == [ArtifactOf(text, sp)] + ArtifactsFrom(text, sp.End())
  {
  }
}
