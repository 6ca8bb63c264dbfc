/**
 * The text scrubbing of the ingestion task (recipes/tasks.py): `clean_text`,
 * a chain of three regular-expression substitutions and a strip, and the
 * splitting of numbered free-text instructions into steps.  Each regular
 * expression is written out as a character-level function.
 */
module TextCleaning {
  import opened Wrappers
  import opened PyText

  // ---------------------------------------------------------------------------
  // clean_text
  // ---------------------------------------------------------------------------

  /** No two whitespace characters stand next to each other. */
  ghost predicate NoDoubleSpace(s: string) {
    forall i :: 0 <= i < |s| - 1 ==> !(IsSpace(s[i]) && IsSpace(s[i + 1]))
  }

  /** No two periods stand next to each other. */
  ghost predicate NoDoublePeriod(s: string) {
    forall i :: 0 <= i < |s| - 1 ==> !(s[i] == '.' && s[i + 1] == '.')
  }

  /** The only whitespace character left is the plain space. */
  ghost predicate OnlyPlainSpaces(s: string) {
    forall i :: 0 <= i < |s| ==> IsSpace(s[i]) ==> s[i] == ' '
  }

  /** The pattern `<[^>]+>` matches nowhere in `s`: every '<' is either directly
      followed by '>' or has no '>' anywhere after it. */
  ghost predicate NoTag(s: string) {
    forall i :: 0 <= i < |s| && s[i] == '<' ==>
      (i + 1 < |s| && s[i + 1] == '>') || '>' !in s[i + 1..]
  }

  /** Where the tag that would start at `s[0]` ends: the first '>' after position 0
      (`|s|` when there is none). */
  function TagEnd(s: string): (k: nat)
    requires s != []
    ensures 1 <= k <= |s|
    ensures k < |s| ==> s[k] == '>'
    ensures forall i :: 1 <= i < k ==> s[i] != '>'
  {
    1 + IndexOf(s[1..], '>')
  }

  /** `re.sub(r'<[^>]+>', '', s)`: drop every '<', at least one character other
      than '>', and the closing '>', scanning from the left. */
  function RemoveTags(s: string): (r: string)
    ensures |r| <= |s|
    ensures '>' !in s ==> '>' !in r
    decreases |s|
  {
    if s == [] then []
    else if s[0] == '<' && 2 <= TagEnd(s) < |s| then RemoveTags(s[TagEnd(s) + 1..])
    else [s[0]] + RemoveTags(s[1..])
  }

  /** After tag removal the tag pattern matches nowhere, so a second pass changes nothing. */
  lemma {:induction false} RemoveTagsLeavesNoTag(s: string)
    ensures NoTag(RemoveTags(s))
    decreases |s|
  {
    if s == [] {
    } else if s[0] == '<' && 2 <= TagEnd(s) < |s| {
      RemoveTagsLeavesNoTag(s[TagEnd(s) + 1..]);
    } else {
      var t := RemoveTags(s[1..]);
      var r := [s[0]] + t;
      RemoveTagsLeavesNoTag(s[1..]);
      forall i | 0 <= i < |r| && r[i] == '<'
        ensures (i + 1 < |r| && r[i + 1] == '>') || '>' !in r[i + 1..]
      {
        if i == 0 {
          var k := TagEnd(s);
          if k < |s| {
            // "<>": the '>' is copied right after the '<'.
            assert k == 1 && s[1..][0] == '>';
            assert t == [s[1]] + RemoveTags(s[1..][1..]);
          } else {
            // no '>' after the '<'
            assert '>' !in s[1..];
            assert r[1..] == t;
          }
        } else {
          assert r[i] == t[i - 1];
          assert r[i + 1..] == t[i..];
        }
      }
    }
  }

  /** `re.sub(r'\s+', ' ', s)`: every run of whitespace becomes one plain space. */
  function CollapseSpaces(s: string): (r: string)
    ensures (r == []) == (s == [])
    ensures s != [] ==> (IsSpace(r[0]) <==> IsSpace(s[0]))
    ensures s != [] && !IsSpace(s[0]) ==> r[0] == s[0]
    ensures NoDoubleSpace(r)
    ensures OnlyPlainSpaces(r)
    decreases |s|
  {
    if s == [] then []
    else if IsSpace(s[0]) then
      var rest := LStrip(s);
      assert |rest| < |s|;
      var t := CollapseSpaces(rest);
      assert rest != [] ==> !IsSpace(t[0]);
      [' '] + t
    else
      var t := CollapseSpaces(s[1..]);
      [s[0]] + t
  }

  /** The leading periods of `s` removed. */
  function DropPeriods(s: string): (r: string)
    ensures |r| <= |s| && r == s[|s| - |r|..]
    ensures forall i :: 0 <= i < |s| - |r| ==> s[i] == '.'
    ensures r == [] || r[0] != '.'
  {
    if s != [] && s[0] == '.' then DropPeriods(s[1..]) else s
  }

  /** `re.sub(r'\.{2,}', '.', s)`: every run of periods becomes one period. */
  function CollapsePeriods(s: string): (r: string)
    ensures (r == []) == (s == [])
    ensures s != [] ==> r[0] == s[0]
    ensures NoDoublePeriod(r)
    decreases |s|
  {
    if s == [] then []
    else if s[0] == '.' then
      var rest := DropPeriods(s);
      assert |rest| < |s|;
      ['.'] + CollapsePeriods(rest)
    else
      [s[0]] + CollapsePeriods(s[1..])
  }

  ghost predicate Spaced(s: string) {
    NoDoubleSpace(s) && OnlyPlainSpaces(s)
  }

  lemma SuffixSpaced(s: string, k: nat)
    requires k <= |s| && Spaced(s)
    ensures Spaced(s[k..])
  {
    assert forall i :: 0 <= i < |s| - k ==> s[k..][i] == s[k + i];
  }

  lemma ConsSpaced(c: char, t: string)
    requires Spaced(t) && (IsSpace(c) ==> c == ' ')
    requires IsSpace(c) && t != [] ==> !IsSpace(t[0])
    ensures Spaced([c] + t)
  {
    assert forall i :: 1 <= i < |[c] + t| ==> ([c] + t)[i] == t[i - 1];
  }

  /** Collapsing periods keeps whitespace as it was: it never brings two
      whitespace characters together and never lets one that is not a plain space in. */
  lemma {:induction false} CollapsePeriodsKeepsSpacing(s: string)
    requires NoDoubleSpace(s) && OnlyPlainSpaces(s)
    ensures NoDoubleSpace(CollapsePeriods(s)) && OnlyPlainSpaces(CollapsePeriods(s))
    decreases |s|
  {
    if s == [] {
    } else if s[0] == '.' {
      var rest := DropPeriods(s);
      SuffixSpaced(s, |s| - |rest|);
      CollapsePeriodsKeepsSpacing(rest);
      ConsSpaced('.', CollapsePeriods(rest));
    } else {
      SuffixSpaced(s, 1);
      CollapsePeriodsKeepsSpacing(s[1..]);
      ConsSpaced(s[0], CollapsePeriods(s[1..]));
    }
  }

  /** Every infix of a string keeps the three spacing properties. */
  lemma InfixKeepsSpacing(s: string, i: nat, j: nat)
    requires i <= j <= |s|
    requires NoDoubleSpace(s) && NoDoublePeriod(s) && OnlyPlainSpaces(s)
    ensures NoDoubleSpace(s[i..j]) && NoDoublePeriod(s[i..j]) && OnlyPlainSpaces(s[i..j])
  {
    var t := s[i..j];
    assert forall k :: 0 <= k < |t| ==> t[k] == s[i + k];
  }

  // ---------------------------------------------------------------------------
  // What the substitutions keep
  // ---------------------------------------------------------------------------

  /** The characters of `s` that `keep` accepts, in order. */
  function Filter(keep: char -> bool, s: string): string {
    if s == [] then [] else (if keep(s[0]) then [s[0]] else []) + Filter(keep, s[1..])
  }

  lemma {:induction false} FilterAppend(keep: char -> bool, a: string, b: string)
    ensures Filter(keep, a + b) == Filter(keep, a) + Filter(keep, b)
  {
    if a == [] {
      assert a + b == b;
    } else {
      var c := if keep(a[0]) then [a[0]] else [];
      assert (a + b)[0] == a[0] && (a + b)[1..] == a[1..] + b;
      assert Filter(keep, a + b) == c + Filter(keep, a[1..] + b);
      assert Filter(keep, a) == c + Filter(keep, a[1..]);
      FilterAppend(keep, a[1..], b);
      Assoc(c, Filter(keep, a[1..]), Filter(keep, b));
    }
  }

  lemma {:induction false} FilterNone(keep: char -> bool, s: string)
    requires forall i :: 0 <= i < |s| ==> !keep(s[i])
    ensures Filter(keep, s) == []
  {
    if s != [] {
      assert forall i :: 0 <= i < |s| - 1 ==> s[1..][i] == s[i + 1];
      FilterNone(keep, s[1..]);
    }
  }

  lemma FilterCons(keep: char -> bool, c: char, t: string)
    ensures Filter(keep, [c] + t) == (if keep(c) then [c] else []) + Filter(keep, t)
  {
    assert ([c] + t)[1..] == t;
  }

  /** A filter that drops whitespace sees no difference after `lstrip`. */
  lemma LStripKeeps(keep: char -> bool, s: string)
    requires forall c :: IsSpace(c) ==> !keep(c)
    ensures Filter(keep, LStrip(s)) == Filter(keep, s)
  {
    var r := LStrip(s);
    var n := |s| - |r|;
    assert s == s[..n] + r;
    FilterAppend(keep, s[..n], r);
    FilterNone(keep, s[..n]);
  }

  /** A filter that drops whitespace sees no difference after `rstrip`. */
  lemma RStripKeeps(keep: char -> bool, s: string)
    requires forall c :: IsSpace(c) ==> !keep(c)
    ensures Filter(keep, RStrip(s)) == Filter(keep, s)
  {
    var r := RStrip(s);
    assert s == r + s[|r|..];
    FilterAppend(keep, r, s[|r|..]);
    FilterNone(keep, s[|r|..]);
  }

  /** `strip` removes whitespace only: every other character survives, in order. */
  lemma StripKeeps(keep: char -> bool, s: string)
    requires forall c :: IsSpace(c) ==> !keep(c)
    ensures Filter(keep, Strip(s)) == Filter(keep, s)
  {
    LStripKeeps(keep, s);
    RStripKeeps(keep, LStrip(s));
  }

  /** `\s+` -> ' ' touches whitespace only: every character that is not whitespace
      survives, in order. */
  lemma {:induction false} CollapseSpacesKeeps(keep: char -> bool, s: string)
    requires forall c :: IsSpace(c) ==> !keep(c)
    ensures Filter(keep, CollapseSpaces(s)) == Filter(keep, s)
    decreases |s|
  {
    if s != [] {
      if IsSpace(s[0]) {
        var rest := LStrip(s);
        CollapseSpacesKeeps(keep, rest);
        FilterCons(keep, ' ', CollapseSpaces(rest));
        LStripKeeps(keep, s);
      } else {
        CollapseSpacesKeeps(keep, s[1..]);
        FilterCons(keep, s[0], CollapseSpaces(s[1..]));
      }
    }
  }

  /** `\.{2,}` -> '.' touches periods only: every character other than '.' survives,
      in order. */
  lemma {:induction false} CollapsePeriodsKeeps(keep: char -> bool, s: string)
    requires !keep('.')
    ensures Filter(keep, CollapsePeriods(s)) == Filter(keep, s)
    decreases |s|
  {
    if s != [] {
      if s[0] == '.' {
        var rest := DropPeriods(s);
        var n := |s| - |rest|;
        CollapsePeriodsKeeps(keep, rest);
        FilterCons(keep, '.', CollapsePeriods(rest));
        assert s == s[..n] + rest;
        FilterAppend(keep, s[..n], rest);
        FilterNone(keep, s[..n]);
      } else {
        CollapsePeriodsKeeps(keep, s[1..]);
        FilterCons(keep, s[0], CollapsePeriods(s[1..]));
      }
    }
  }

  /** Text before the first '<' is copied unchanged. */
  lemma {:induction false} RemoveTagsPrefix(a: string, b: string)
    requires '<' !in a
    ensures RemoveTags(a + b) == a + RemoveTags(b)
  {
    if a == [] {
      assert a + b == b;
    } else {
      assert (a + b)[0] == a[0] && (a + b)[1..] == a[1..] + b;
      RemoveTagsPrefix(a[1..], b);
    }
  }

  /** Text without '<' holds no tag and is left as it is. */
  lemma RemoveTagsNoOpen(s: string)
    requires '<' !in s
    ensures RemoveTags(s) == s
  {
    RemoveTagsPrefix(s, []);
    assert s + [] == s;
  }

  /** A tag `<body>` at the front, with a non-empty body free of '>', is removed whole
      and nothing after it is touched by its removal. */
  lemma RemoveTagsDropsTag(body: string, b: string)
    requires body != [] && '>' !in body
    ensures RemoveTags("<" + body + ">" + b) == RemoveTags(b)
  {
    var s := "<" + body + ">" + b;
    var x := s[1..];
    assert x == body + ">" + b;
    assert x[|body|] == '>';
    assert forall i :: 0 <= i < |body| ==> x[i] == body[i];
    assert IndexOf(x, '>') == |body|;
    assert s[|body| + 2..] == b;
  }

  /** A '<' that opens no tag is kept: the text after it is empty, starts with '>'
      (`<>` is no tag, since the pattern needs a character between the brackets),
      or holds no '>' at all. */
  lemma RemoveTagsKeepsOpen(b: string)
    requires b == [] || b[0] == '>' || '>' !in b
    ensures RemoveTags("<" + b) == "<" + RemoveTags(b)
  {
    var s := "<" + b;
    assert s[1..] == b;
    if b != [] && b[0] != '>' {
      assert IndexOf(b, '>') == |b|;
    }
  }

  /** Text without whitespace is left as it is by `CollapseSpaces`. */
  lemma {:induction false} CollapseSpacesNoSpace(a: string)
    requires forall i :: 0 <= i < |a| ==> !IsSpace(a[i])
    ensures CollapseSpaces(a) == a
  {
    if a != [] {
      CollapseSpacesNoSpace(a[1..]);
    }
  }

  /** No whitespace run crosses the end of a text that ends in another character, so
      such a text and what follows it are collapsed independently. */
  lemma {:induction false} CollapseSpacesAppend(a: string, t: string)
    requires a == [] || !IsSpace(a[|a| - 1])
    ensures CollapseSpaces(a + t) == CollapseSpaces(a) + CollapseSpaces(t)
    decreases |a|
  {
    var s := a + t;
    if a == [] {
      assert s == t;
    } else if IsSpace(a[0]) {
      var k := LeadingSpace(a);
      assert k < |a|;
      LeadingSpaceUnique(s, k);
      var ra := LStrip(a);
      assert LStrip(s) == ra + t;
      CollapseSpacesAppend(ra, t);
      Assoc([' '], CollapseSpaces(ra), CollapseSpaces(t));
    } else {
      assert s[0] == a[0] && s[1..] == a[1..] + t;
      CollapseSpacesAppend(a[1..], t);
      Assoc([a[0]], CollapseSpaces(a[1..]), CollapseSpaces(t));
    }
  }

  /** A whitespace run between two non-whitespace characters becomes exactly one
      space, and the text on either side is collapsed on its own. */
  lemma CollapseSpacesRun(a: string, w: string, b: string)
    requires w != [] && AllSpace(w)
    requires a == [] || !IsSpace(a[|a| - 1])
    requires b == [] || !IsSpace(b[0])
    ensures CollapseSpaces(a + w + b) == CollapseSpaces(a) + " " + CollapseSpaces(b)
  {
    var y := w + b;
    Assoc(a, w, b);
    CollapseSpacesAppend(a, y);
    LeadingSpaceUnique(y, |w|);
    assert LStrip(y) == b;
    Assoc(CollapseSpaces(a), " ", CollapseSpaces(b));
  }

  lemma Assoc(x: string, y: string, z: string)
    ensures x + y + z == x + (y + z)
  {
  }

  /** Text without '.' is left as it is by `CollapsePeriods`. */
  lemma {:induction false} CollapsePeriodsNoPeriod(a: string)
    requires '.' !in a
    ensures CollapsePeriods(a) == a
  {
    if a != [] {
      CollapsePeriodsNoPeriod(a[1..]);
    }
  }

  /** Leading periods are dropped up to the first other character, whatever follows it. */
  lemma {:induction false} DropPeriodsAppend(a: string, b: string)
    requires DropPeriods(a) != []
    ensures DropPeriods(a + b) == DropPeriods(a) + b
  {
    var s := a + b;
    assert s[0] == a[0];
    if a[0] == '.' {
      assert s[1..] == a[1..] + b;
      assert DropPeriods(s) == DropPeriods(s[1..]);
      assert DropPeriods(a) == DropPeriods(a[1..]);
      DropPeriodsAppend(a[1..], b);
    } else {
      assert DropPeriods(a) == a;
    }
  }

  /** A run of periods and nothing more is dropped. */
  lemma {:induction false} DropPeriodsRun(w: string, b: string)
    requires forall i :: 0 <= i < |w| ==> w[i] == '.'
    requires b == [] || b[0] != '.'
    ensures DropPeriods(w + b) == b
  {
    if w == [] {
      assert w + b == b;
    } else {
      assert (w + b)[1..] == w[1..] + b;
      DropPeriodsRun(w[1..], b);
    }
  }

  /** No period run crosses the end of a text that ends in another character, so
      such a text and what follows it are collapsed independently. */
  lemma {:induction false} CollapsePeriodsAppend(a: string, t: string)
    requires a == [] || a[|a| - 1] != '.'
    ensures CollapsePeriods(a + t) == CollapsePeriods(a) + CollapsePeriods(t)
    decreases |a|
  {
    var s := a + t;
    if a == [] {
      assert s == t;
    } else if a[0] == '.' {
      var ra := DropPeriods(a);
      assert ra != [];
      DropPeriodsAppend(a, t);
      assert ra[|ra| - 1] == a[|a| - 1];
      CollapsePeriodsAppend(ra, t);
      Assoc(['.'], CollapsePeriods(ra), CollapsePeriods(t));
    } else {
      assert s[0] == a[0] && s[1..] == a[1..] + t;
      CollapsePeriodsAppend(a[1..], t);
      Assoc([a[0]], CollapsePeriods(a[1..]), CollapsePeriods(t));
    }
  }

  /** A run of periods between two other characters becomes exactly one period,
      and the text on either side is collapsed on its own. */
  lemma CollapsePeriodsRun(a: string, w: string, b: string)
    requires w != [] && forall i :: 0 <= i < |w| ==> w[i] == '.'
    requires a == [] || a[|a| - 1] != '.'
    requires b == [] || b[0] != '.'
    ensures CollapsePeriods(a + w + b) == CollapsePeriods(a) + "." + CollapsePeriods(b)
  {
    var y := w + b;
    Assoc(a, w, b);
    CollapsePeriodsAppend(a, y);
    DropPeriodsRun(w, b);
    Assoc(CollapsePeriods(a), ".", CollapsePeriods(b));
  }

  /** `clean_text(text)`; `None` stands for Python's `None`. */
  function CleanText(text: Option<string>): string
  {
    if text == None || text == Some("") then ""
    else Strip(CollapsePeriods(CollapseSpaces(RemoveTags(text.value))))
  }

  /** What `clean_text` promises: falsy input gives "", and otherwise the result has no
      whitespace at either end, no whitespace other than plain spaces, and no two
      whitespace characters or two periods next to each other. */
  lemma CleanTextShape(text: Option<string>)
    ensures text == None || text == Some("") ==> CleanText(text) == ""
    ensures NoEdgeSpace(CleanText(text))
    ensures NoDoubleSpace(CleanText(text)) && NoDoublePeriod(CleanText(text))
    ensures OnlyPlainSpaces(CleanText(text))
  {
    if text != None && text != Some("") {
      var c := CollapseSpaces(RemoveTags(text.value));
      CollapsePeriodsKeepsSpacing(c);
      var p := CollapsePeriods(c);
      var r := Strip(p);
      StripSpec(p);
      var i, j :| 0 <= i <= j <= |p| && r == p[i..j] && AllSpace(p[..i]) && AllSpace(p[j..]);
      InfixKeepsSpacing(p, i, j);
    }
  }

  /** `clean_text` only removes tags, whitespace and periods: every other character
      of the tag-free text survives, in order; text without '<' loses nothing but
      whitespace and periods. */
  lemma CleanTextKeeps(keep: char -> bool, s: string)
    requires forall c :: IsSpace(c) ==> !keep(c)
    requires !keep('.')
    ensures s != "" ==> Filter(keep, CleanText(Some(s))) == Filter(keep, RemoveTags(s))
    ensures s != "" && '<' !in s ==> Filter(keep, CleanText(Some(s))) == Filter(keep, s)
  {
    if s != "" {
      var t := RemoveTags(s);
      var c := CollapseSpaces(t);
      var p := CollapsePeriods(c);
      StripKeeps(keep, p);
      CollapsePeriodsKeeps(keep, c);
      CollapseSpacesKeeps(keep, t);
      if '<' !in s {
        RemoveTagsNoOpen(s);
      }
    }
  }

  // ---------------------------------------------------------------------------
  // Numbered free-text instructions (tasks.py, the free-text branch)
  // ---------------------------------------------------------------------------

  /** The end of the run of ASCII digits that starts at position `p`. */
  function DigitRunEnd(s: string, p: nat): (q: nat)
    requires p <= |s|
    ensures p <= q <= |s|
    ensures forall k :: p <= k < q ==> IsDigit(s[k])
    ensures q < |s| ==> !IsDigit(s[q])
    decreases |s| - p
  {
    if p < |s| && IsDigit(s[p]) then DigitRunEnd(s, p + 1) else p
  }

  /** `\d+\.` matches at position `p`: one or more digits, then a period. */
  predicate NumberAt(s: string, p: nat)
    requires p <= |s|
  {
    p < |s| && IsDigit(s[p]) && DigitRunEnd(s, p) < |s| && s[DigitRunEnd(s, p)] == '.'
  }

  /** `re.search(r'\d+\.', s)` finds something. */
  predicate HasNumbering(s: string) {
    exists p :: 0 <= p < |s| && NumberAt(s, p)
  }

  function Concat(pieces: seq<string>): string {
    if pieces == [] then "" else pieces[0] + Concat(pieces[1..])
  }

  /** Where piece `i` starts in the concatenation of the pieces. */
  function Offset(pieces: seq<string>, i: nat): nat
    requires i <= |pieces|
  {
    if i == 0 then 0 else |pieces[0]| + Offset(pieces[1..], i - 1)
  }

  /** The start of piece `i` is the length of the pieces before it. */
  lemma {:induction false} OffsetConcat(pieces: seq<string>, i: nat)
    requires i <= |pieces|
    ensures Offset(pieces, i) == |Concat(pieces[..i])|
  {
    if i > 0 {
      OffsetConcat(pieces[1..], i - 1);
      assert pieces[..i][0] == pieces[0] && pieces[..i][1..] == pieces[1..][..i - 1];
    }
  }

  /** Where the pieces after the first start. */
  function PieceStarts(pieces: seq<string>): set<nat> {
    set i: nat | 0 < i < |pieces| :: Offset(pieces, i)
  }

  /** Behind a first piece `h`, every later piece starts `|h|` further on. */
  lemma OffsetCons(h: string, rest: seq<string>, i: nat)
    requires 1 <= i <= |rest| + 1
    ensures Offset([h] + rest, i) == |h| + Offset(rest, i - 1)
  {
    assert ([h] + rest)[0] == h && ([h] + rest)[1..] == rest;
  }

  /** The split of `s` before every position `k` with `marks[k]`, from the piece that
      starts at `start`, with the scan at position `p`. */
  function SplitMarks(s: string, marks: seq<bool>, start: nat, p: nat): (pieces: seq<string>)
    requires |marks| == |s| && start <= p <= |s|
    ensures |pieces| >= 1
    decreases |s| - p
  {
    if p == |s| then [s[start..]]
    else if marks[p] then [s[start..p]] + SplitMarks(s, marks, p, p + 1)
    else SplitMarks(s, marks, start, p + 1)
  }

  /** Every piece behind the first starts at a marked position in `[p, |s|)`. */
  lemma {:induction false} SplitMarksSound(s: string, marks: seq<bool>, start: nat, p: nat, i: nat)
    requires |marks| == |s| && start <= p <= |s|
    requires 0 < i < |SplitMarks(s, marks, start, p)|
    ensures p <= start + Offset(SplitMarks(s, marks, start, p), i) < |s|
    ensures marks[start + Offset(SplitMarks(s, marks, start, p), i)]
    decreases |s| - p
  {
    if marks[p] {
      var h, rest := s[start..p], SplitMarks(s, marks, p, p + 1);
      OffsetCons(h, rest, i);
      if i > 1 {
        SplitMarksSound(s, marks, p, p + 1, i - 1);
      }
    } else {
      SplitMarksSound(s, marks, start, p + 1, i);
    }
  }

  /** Every marked position in `[p, |s|)` starts a piece behind the first. */
  lemma {:induction false} SplitMarksComplete(s: string, marks: seq<bool>, start: nat, p: nat, q: nat)
    requires |marks| == |s| && start <= p <= q < |s| && marks[q]
    ensures exists i :: 0 < i < |SplitMarks(s, marks, start, p)| && start + Offset(SplitMarks(s, marks, start, p), i) == q
    decreases |s| - p
  {
    var ps := SplitMarks(s, marks, start, p);
    if marks[p] {
      var h, rest := s[start..p], SplitMarks(s, marks, p, p + 1);
      if q == p {
        OffsetCons(h, rest, 1);
        assert start + Offset(ps, 1) == q;
      } else {
        SplitMarksComplete(s, marks, p, p + 1, q);
        var j :| 0 < j < |rest| && p + Offset(rest, j) == q;
        OffsetCons(h, rest, j + 1);
        assert start + Offset(ps, j + 1) == q;
      }
    } else {
      SplitMarksComplete(s, marks, start, p + 1, q);
    }
  }

  /** The starts of the pieces after the first are exactly the marked positions. */
  lemma SplitMarksCutSet(s: string, marks: seq<bool>)
    requires |marks| == |s|
    ensures var ps := SplitMarks(s, marks, 0, 0);
      PieceStarts(ps) == (set q: nat | q < |s| && marks[q])
  {
    var ps := SplitMarks(s, marks, 0, 0);
    var cuts := PieceStarts(ps);
    var marked := set q: nat | q < |s| && marks[q];
    forall x | x in cuts
      ensures x in marked
    {
      var i :| 0 < i < |ps| && x == Offset(ps, i);
      SplitMarksSound(s, marks, 0, 0, i);
    }
    forall q | q in marked
      ensures q in cuts
    {
      SplitMarksComplete(s, marks, 0, 0, q);
      var i :| 0 < i < |ps| && Offset(ps, i) == q;
    }
    assert cuts == marked;
  }

  /** The pieces of `re.split(r'(?=\d+\.)', s)` from the piece that starts at
      `start`, with the scan at position `p`: a cut falls before every position
      where `\d+\.` matches, including digits inside a longer number. */
  function SplitFrom(s: string, start: nat, p: nat): (pieces: seq<string>)
    requires start <= p <= |s|
    ensures |pieces| >= 1
    decreases |s| - p
  {
    if p == |s| then [s[start..]]
    else if NumberAt(s, p) then [s[start..p]] + SplitFrom(s, p, p + 1)
    else SplitFrom(s, start, p + 1)
  }

  /** `re.split(r'(?=\d+\.)', s)`. */
  function SplitBeforeNumbers(s: string): (pieces: seq<string>)
    ensures |pieces| >= 1
  {
    SplitFrom(s, 0, 0)
  }

  lemma {:induction false} SplitFromRoundTrip(s: string, start: nat, p: nat)
    requires start <= p <= |s|
    ensures Concat(SplitFrom(s, start, p)) == s[start..]
    ensures start < p ==> SplitFrom(s, start, p)[0] != [] && SplitFrom(s, start, p)[0][0] == s[start]
    ensures forall i :: 0 < i < |SplitFrom(s, start, p)| ==>
      SplitFrom(s, start, p)[i] != [] && IsDigit(SplitFrom(s, start, p)[i][0])
    decreases |s| - p
  {
    SplitFromConcat(s, start, p);
    var pieces := SplitFrom(s, start, p);
    if p < |s| && NumberAt(s, p) {
      var rest := SplitFrom(s, p, p + 1);
      SplitFromRoundTrip(s, p, p + 1);
      assert pieces == [s[start..p]] + rest;
      forall i | 0 < i < |pieces| ensures pieces[i] != [] && IsDigit(pieces[i][0]) {
        assert pieces[i] == rest[i - 1];
      }
    } else if p < |s| {
      SplitFromRoundTrip(s, start, p + 1);
    }
  }

  /** The as-written split loses and adds nothing. */
  lemma {:induction false} SplitFromConcat(s: string, start: nat, p: nat)
    requires start <= p <= |s|
    ensures Concat(SplitFrom(s, start, p)) == s[start..]
    decreases |s| - p
  {
    var pieces := SplitFrom(s, start, p);
    if p == |s| {
      assert Concat(pieces) == s[start..] + Concat([]);
    } else if NumberAt(s, p) {
      var rest := SplitFrom(s, p, p + 1);
      SplitFromConcat(s, p, p + 1);
      assert pieces == [s[start..p]] + rest && pieces[1..] == rest;
      assert s[start..] == s[start..p] + s[p..];
    } else {
      SplitFromConcat(s, start, p + 1);
    }
  }

  /** The as-written split is the split at the positions where `\d+\.` matches. */
  lemma {:induction false} SplitFromMarks(s: string, marks: seq<bool>, start: nat, p: nat)
    requires |marks| == |s| && start <= p <= |s|
    requires forall k :: 0 <= k < |s| ==> marks[k] == NumberAt(s, k)
    ensures SplitFrom(s, start, p) == SplitMarks(s, marks, start, p)
    decreases |s| - p
  {
    if p < |s| {
      if marks[p] {
        SplitFromMarks(s, marks, p, p + 1);
      } else {
        SplitFromMarks(s, marks, start, p + 1);
      }
    }
  }

  /** `re.split` cuts before every match of the lookahead and nowhere else: the
      pieces after the first start exactly at the positions where `\d+\.` matches. */
  lemma SplitBeforeNumbersCuts(s: string)
    ensures var ps := SplitBeforeNumbers(s);
      PieceStarts(ps) == (set q: nat | q < |s| && NumberAt(s, q))
  {
    var marks := seq(|s|, k requires 0 <= k < |s| => NumberAt(s, k));
    SplitFromMarks(s, marks, 0, 0);
    SplitMarksCutSet(s, marks);
    assert (set q: nat | q < |s| && NumberAt(s, q)) == (set q: nat | q < |s| && marks[q]);
  }


  /** Splitting loses and adds nothing: the pieces concatenate back to the input, and
      every piece after the first starts with a digit where the lookahead matched. */
  lemma SplitBeforeNumbersRoundTrip(s: string)
    ensures Concat(SplitBeforeNumbers(s)) == s
    ensures forall i :: 0 < i < |SplitBeforeNumbers(s)| ==>
      SplitBeforeNumbers(s)[i] != [] && IsDigit(SplitBeforeNumbers(s)[i][0])
    ensures PieceStarts(SplitBeforeNumbers(s)) == (set q: nat | q < |s| && NumberAt(s, q))
  {
    SplitBeforeNumbersCuts(s);
    SplitFromRoundTrip(s, 0, 0);
    assert s[0..] == s;
  }

  /** `[step.strip() for step in steps if step.strip()]`. */
  function StrippedNonEmpty(steps: seq<string>): seq<string>
  {
    if steps == [] then []
    else if Strip(steps[0]) != [] then [Strip(steps[0])] + StrippedNonEmpty(steps[1..])
    else StrippedNonEmpty(steps[1..])
  }

  /** `re.sub(r'^\d+\.\s*', '', t)`. */
  function DropStepNumber(t: string): string
  {
    if NumberAt(t, 0) then LStrip(t[DigitRunEnd(t, 0) + 1..]) else t
  }

  /** `[re.sub(r'^\d+\.\s*', '', inst.strip()) for inst in steps if inst.strip()]`. */
  function DropStepNumbers(steps: seq<string>): seq<string>
  {
    if steps == [] then []
    else if Strip(steps[0]) != [] then [DropStepNumber(Strip(steps[0]))] + DropStepNumbers(steps[1..])
    else DropStepNumbers(steps[1..])
  }

  /** The steps taken from already-cleaned free-text instructions: text with a
      `\d+\.` numbering is split before every number and stripped of the leading
      `N.`; text without one yields no step, since the sentence split computed in
      that branch is never used. */
  function FreeTextSteps(clean: string): seq<string>
  {
    if HasNumbering(clean) then DropStepNumbers(StrippedNonEmpty(SplitBeforeNumbersFixed(clean)))
    else []
  }

  /** Dropping the step number from a stripped, non-empty piece leaves no
      whitespace at either end. */
  lemma DropStepNumberNoEdge(t: string)
    requires NoEdgeSpace(t)
    ensures NoEdgeSpace(DropStepNumber(t))
  {
    if NumberAt(t, 0) {
      var u := t[DigitRunEnd(t, 0) + 1..];
      var v := LStrip(u);
      if v != [] {
        assert v[|v| - 1] == t[|t| - 1];
      }
    }
  }

  lemma {:induction false} StrippedNonEmptyShape(steps: seq<string>)
    ensures |StrippedNonEmpty(steps)| <= |steps|
    ensures forall t :: t in StrippedNonEmpty(steps) ==> t != [] && NoEdgeSpace(t)
  {
    if steps != [] {
      StrippedNonEmptyShape(steps[1..]);
      var rest := StrippedNonEmpty(steps[1..]);
      var head := Strip(steps[0]);
      if head != [] {
        StripNoEdge(steps[0]);
        assert StrippedNonEmpty(steps) == [head] + rest;
      } else {
        assert StrippedNonEmpty(steps) == rest;
      }
    }
  }

  lemma {:induction false} DropStepNumbersShape(steps: seq<string>)
    ensures |DropStepNumbers(steps)| <= |steps|
    ensures forall t :: t in DropStepNumbers(steps) ==> NoEdgeSpace(t)
  {
    if steps != [] {
      DropStepNumbersShape(steps[1..]);
      var rest := DropStepNumbers(steps[1..]);
      var head := Strip(steps[0]);
      if head != [] {
        StripNoEdge(steps[0]);
        DropStepNumberNoEdge(head);
        assert DropStepNumbers(steps) == [DropStepNumber(head)] + rest;
      } else {
        assert DropStepNumbers(steps) == rest;
      }
    }
  }

  /** Free text without a `\d+\.` numbering yields no step; otherwise there are at most as
      many steps as pieces of the split, none with whitespace at either end. */
  lemma FreeTextStepsShape(clean: string)
    ensures !HasNumbering(clean) ==> FreeTextSteps(clean) == []
    ensures |FreeTextSteps(clean)| <= |SplitBeforeNumbersFixed(clean)|
    ensures forall t :: t in FreeTextSteps(clean) ==> NoEdgeSpace(t)
  {
    var pieces := SplitBeforeNumbersFixed(clean);
    StrippedNonEmptyShape(pieces);
    DropStepNumbersShape(StrippedNonEmpty(pieces));
  }

  /** The text of a numbered piece after its `N.`, without whitespace at either end. */
  function StepBody(p: string): string
    requires NumberAt(p, 0)
  {
    Strip(p[DigitRunEnd(p, 0) + 1..])
  }

  /** A piece that starts with `N.` has no whitespace in front, and its trailing
      whitespace starts after the period. */
  lemma NumberedStrip(p: string)
    requires NumberAt(p, 0)
    ensures DigitRunEnd(p, 0) < TrailingStart(p)
    ensures Strip(p) == p[..TrailingStart(p)]
  {
    LeadingSpaceUnique(p, 0);
    assert LStrip(p) == p;
    assert !IsSpace(p[DigitRunEnd(p, 0)]);
  }

  /** Removing the number of the stripped piece strips the text after the period on
      the left. */
  lemma NumberedDrop(p: string)
    requires NumberAt(p, 0)
    ensures var d := DigitRunEnd(p, 0);
      var k := TrailingStart(p);
      d < k && DropStepNumber(Strip(p)) == LStrip(p[d + 1..k])
  {
    NumberedStrip(p);
    NumberedPrefix(p, TrailingStart(p));
  }

  /** Cutting a numbered text after its number keeps the number, and what follows
      the period is cut at the same place. */
  lemma NumberedPrefix(p: string, k: nat)
    requires NumberAt(p, 0) && DigitRunEnd(p, 0) < k <= |p|
    ensures var d := DigitRunEnd(p, 0);
      DropStepNumber(p[..k]) == LStrip(p[d + 1..k])
  {
    var d := DigitRunEnd(p, 0);
    var t := p[..k];
    DigitRunEndSlice(p, 0, k, 0);
    assert p[0..k] == t;
    assert DigitRunEnd(t, 0) == d;
    assert t[0] == p[0] && t[d] == p[d];
    assert NumberAt(t, 0);
    assert t[d + 1..] == p[d + 1..k];
  }

  /** The text after the period ends its trailing whitespace where the piece does. */
  lemma NumberedTail(p: string)
    requires NumberAt(p, 0)
    ensures var d := DigitRunEnd(p, 0);
      var k := TrailingStart(p);
      d < k && RStrip(p[d + 1..]) == p[d + 1..k]
  {
    NumberedStrip(p);
    var d := DigitRunEnd(p, 0);
    var k := TrailingStart(p);
    RStripSuffix(p, d + 1);
  }

  /** A piece that starts with `N.` survives the stripping filter, and removing its
      number leaves its step body. */
  lemma NumberedPieceLine(p: string)
    requires NumberAt(p, 0)
    ensures Strip(p) != []
    ensures DropStepNumber(Strip(p)) == StepBody(p)
  {
    NumberedDrop(p);
    NumberedTail(p);
    StripBothOrders(p[DigitRunEnd(p, 0) + 1..]);
  }

  /** Stripping the left or the right side first gives the same result. */
  lemma StripBothOrders(u: string)
    ensures LStrip(RStrip(u)) == Strip(u)
  {
    var a := LeadingSpace(u);
    var b := TrailingStart(u);
    if a == |u| {
      TrailingStartUnique(u, 0);
      assert RStrip(u) == [];
      assert LStrip(u) == [];
    } else {
      assert !IsSpace(u[a]);
      assert a < b;
      LeadingSpaceUnique(u[..b], a);
      TrailingStartUnique(u[a..], b - a);
      assert u[..b][a..] == u[a..][..b - a];
    }
  }

  /** The step bodies of numbered pieces, in order. */
  function StepBodies(ps: seq<string>): (bodies: seq<string>)
    requires forall k :: 0 <= k < |ps| ==> NumberAt(ps[k], 0)
    ensures |bodies| == |ps|
    ensures forall k :: 0 <= k < |ps| ==> bodies[k] == StepBody(ps[k])
  {
    if ps == [] then [] else [StepBody(ps[0])] + StepBodies(ps[1..])
  }

  /** The line, if any, that the first piece of the split gives. */
  function LeadLine(p: string): seq<string> {
    if Strip(p) == [] then [] else [DropStepNumber(Strip(p))]
  }

  /** Filtering and renumbering a non-empty list handles its head and then its tail. */
  lemma LinesCons(ps: seq<string>)
    requires ps != []
    ensures DropStepNumbers(StrippedNonEmpty(ps)) == LeadLine(ps[0]) + DropStepNumbers(StrippedNonEmpty(ps[1..]))
  {
    var h := Strip(ps[0]);
    if h != [] {
      StripNoEdge(ps[0]);
      StripIdempotent(h);
      assert ([h] + StrippedNonEmpty(ps[1..]))[0] == h;
      assert ([h] + StrippedNonEmpty(ps[1..]))[1..] == StrippedNonEmpty(ps[1..]);
    }
  }

  /** The lines of pieces that all start with `N.` are their step bodies, one each. */
  lemma {:induction false} NumberedPiecesLines(ps: seq<string>)
    requires forall k :: 0 <= k < |ps| ==> NumberAt(ps[k], 0)
    ensures DropStepNumbers(StrippedNonEmpty(ps)) == StepBodies(ps)
  {
    if ps != [] {
      NumberedPiecesLines(ps[1..]);
      NumberedPieceLine(ps[0]);
      LinesCons(ps);
    }
  }

  /** What numbered free text yields: the text before the first step number gives at
      most one line of its own, and then every step `N. body` gives exactly one line,
      its body without the number and without whitespace at either end, in order. */
  lemma FreeTextStepsBodies(clean: string)
    requires HasNumbering(clean)
    ensures PieceStarts(SplitBeforeNumbersFixed(clean)) == (set q: nat | q < |clean| && CutAt(clean, q))
    ensures forall k :: 0 < k < |SplitBeforeNumbersFixed(clean)| ==> NumberAt(SplitBeforeNumbersFixed(clean)[k], 0)
    ensures FreeTextSteps(clean) ==
      LeadLine(SplitBeforeNumbersFixed(clean)[0]) + StepBodies(SplitBeforeNumbersFixed(clean)[1..])
  {
    var pieces := SplitBeforeNumbersFixed(clean);
    SplitBeforeNumbersFixedSpec(clean);
    var tail := pieces[1..];
    assert forall k :: 0 <= k < |tail| ==> tail[k] == pieces[k + 1];
    NumberedPiecesLines(tail);
    LinesCons(pieces);
  }

  /** Text that starts with a step number gives no line before the first step. */
  lemma LeadingNumberNoLead(clean: string)
    requires NumberAt(clean, 0)
    ensures SplitBeforeNumbersFixed(clean)[0] == []
    ensures LeadLine(SplitBeforeNumbersFixed(clean)[0]) == []
  {
    assert CutAt(clean, 0);
  }

  /** Positions that hold no digit add no cut. */
  lemma {:induction false} SplitFromSkip(s: string, start: nat, p: nat, q: nat)
    requires start <= p <= q <= |s|
    requires forall k :: p <= k < q ==> !IsDigit(s[k])
    ensures SplitFrom(s, start, p) == SplitFrom(s, start, q)
    decreases q - p
  {
    if p < q {
      SplitFromSkip(s, start, p + 1, q);
    }
  }

  /** As written, the lookahead also matches inside a number of two or more digits:
      the step "10." is cut into a piece "1" and a piece "0. A", and the piece "1"
      does not start with a step number. */
  lemma SplitCutsInsideNumber()
    ensures SplitBeforeNumbers("10. A") == ["", "1", "0. A"]
    ensures !NumberAt(SplitBeforeNumbers("10. A")[1], 0)
  {
    var s := "10. A";
    assert DigitRunEnd(s, 1) == 2;
    assert NumberAt(s, 0) && NumberAt(s, 1);
    SplitFromSkip(s, 1, 2, 5);
    assert s[0..0] == "" && s[0..1] == "1" && s[1..] == "0. A";
  }

  /** A cut point of the corrected split: `\d+\.` matches here and no digit comes
      just before, as with the pattern `(?<!\d)(?=\d+\.)`. */
  predicate CutAt(s: string, p: nat)
    requires p <= |s|
  {
    NumberAt(s, p) && (p == 0 || !IsDigit(s[p - 1]))
  }

  /** The corrected split, scanning from position `p` inside the piece that starts at `start`. */
  function SplitFromFixed(s: string, start: nat, p: nat): (pieces: seq<string>)
    requires start <= p <= |s|
    ensures |pieces| >= 1
    decreases |s| - p
  {
    if p == |s| then [s[start..]]
    else if CutAt(s, p) then [s[start..p]] + SplitFromFixed(s, p, p + 1)
    else SplitFromFixed(s, start, p + 1)
  }

  /** The split the numbered-instructions branch evidently intends: a cut before
      every whole step number. */
  function SplitBeforeNumbersFixed(s: string): (pieces: seq<string>)
    ensures |pieces| >= 1
  {
    SplitFromFixed(s, 0, 0)
  }

  /** Positions that hold no digit add no cut to the corrected split either. */
  lemma {:induction false} SplitFromFixedSkip(s: string, start: nat, p: nat, q: nat)
    requires start <= p <= q <= |s|
    requires forall k :: p <= k < q ==> !IsDigit(s[k])
    ensures SplitFromFixed(s, start, p) == SplitFromFixed(s, start, q)
    decreases q - p
  {
    if p < q {
      SplitFromFixedSkip(s, start, p + 1, q);
    }
  }

  /** The digit run seen inside a slice is the digit run of the whole string. */
  lemma {:induction false} DigitRunEndSlice(s: string, a: nat, b: nat, p: nat)
    requires a <= p <= |s| && b <= |s| && DigitRunEnd(s, p) < b
    ensures DigitRunEnd(s[a..b], p - a) == DigitRunEnd(s, p) - a
    decreases |s| - p
  {
    if IsDigit(s[p]) {
      DigitRunEndSlice(s, a, b, p + 1);
    }
  }

  lemma {:induction false} SplitFromFixedFirstNumbered(s: string, start: nat, p: nat)
    requires start < p <= |s| && NumberAt(s, start)
    ensures NumberAt(SplitFromFixed(s, start, p)[0], 0)
    decreases |s| - p
  {
    var e := DigitRunEnd(s, start);
    if p == |s| || CutAt(s, p) {
      if p < |s| {
        assert !IsDigit(s[p - 1]);
        assert e < p;
      }
      DigitRunEndSlice(s, start, p, start);
      assert s[start..p][e - start] == s[e];
    } else {
      SplitFromFixedFirstNumbered(s, start, p + 1);
    }
  }

  lemma {:induction false} SplitFromFixedSpec(s: string, start: nat, p: nat)
    requires start <= p <= |s|
    requires start == 0 || (start < p && NumberAt(s, start))
    ensures Concat(SplitFromFixed(s, start, p)) == s[start..]
    ensures forall i :: 0 < i < |SplitFromFixed(s, start, p)| ==> NumberAt(SplitFromFixed(s, start, p)[i], 0)
    decreases |s| - p
  {
    SplitFromFixedConcat(s, start, p);
    var pieces := SplitFromFixed(s, start, p);
    if p < |s| && CutAt(s, p) {
      var rest := SplitFromFixed(s, p, p + 1);
      SplitFromFixedSpec(s, p, p + 1);
      SplitFromFixedFirstNumbered(s, p, p + 1);
      assert pieces == [s[start..p]] + rest;
      forall i | 0 < i < |pieces| ensures NumberAt(pieces[i], 0) {
        assert pieces[i] == rest[i - 1];
      }
    } else if p < |s| {
      SplitFromFixedSpec(s, start, p + 1);
    }
  }

  /** The corrected split loses and adds nothing. */
  lemma {:induction false} SplitFromFixedConcat(s: string, start: nat, p: nat)
    requires start <= p <= |s|
    ensures Concat(SplitFromFixed(s, start, p)) == s[start..]
    decreases |s| - p
  {
    var pieces := SplitFromFixed(s, start, p);
    if p == |s| {
      assert Concat(pieces) == s[start..] + Concat([]);
    } else if CutAt(s, p) {
      var rest := SplitFromFixed(s, p, p + 1);
      SplitFromFixedConcat(s, p, p + 1);
      assert pieces == [s[start..p]] + rest && pieces[1..] == rest;
      assert s[start..] == s[start..p] + s[p..];
    } else {
      SplitFromFixedConcat(s, start, p + 1);
    }
  }

  /** The corrected split loses and adds nothing, and every piece after the first
      starts with a whole step number `\d+\.`. */
  lemma SplitBeforeNumbersFixedSpec(s: string)
    ensures Concat(SplitBeforeNumbersFixed(s)) == s
    ensures forall i :: 0 < i < |SplitBeforeNumbersFixed(s)| ==> NumberAt(SplitBeforeNumbersFixed(s)[i], 0)
    ensures PieceStarts(SplitBeforeNumbersFixed(s)) == (set q: nat | q < |s| && CutAt(s, q))
  {
    SplitBeforeNumbersFixedCuts(s);
    SplitFromFixedSpec(s, 0, 0);
    assert s[0..] == s;
  }

  /** The corrected split is the split at its cut points. */
  lemma {:induction false} SplitFromFixedMarks(s: string, marks: seq<bool>, start: nat, p: nat)
    requires |marks| == |s| && start <= p <= |s|
    requires forall k :: 0 <= k < |s| ==> marks[k] == CutAt(s, k)
    ensures SplitFromFixed(s, start, p) == SplitMarks(s, marks, start, p)
    decreases |s| - p
  {
    if p < |s| {
      if marks[p] {
        SplitFromFixedMarks(s, marks, p, p + 1);
      } else {
        SplitFromFixedMarks(s, marks, start, p + 1);
      }
    }
  }

  /** The corrected split cuts before every whole step number and nowhere else: the
      pieces after the first start exactly at the cut points of `s`. */
  lemma SplitBeforeNumbersFixedCuts(s: string)
    ensures var ps := SplitBeforeNumbersFixed(s);
      PieceStarts(ps) == (set q: nat | q < |s| && CutAt(s, q))
  {
    var marks := seq(|s|, k requires 0 <= k < |s| => CutAt(s, k));
    SplitFromFixedMarks(s, marks, 0, 0);
    SplitMarksCutSet(s, marks);
    assert (set q: nat | q < |s| && CutAt(s, q)) == (set q: nat | q < |s| && marks[q]);
  }


  /** The corrected split keeps "10." whole. */
  lemma SplitFixedKeepsNumber()
    ensures SplitBeforeNumbersFixed("10. A") == ["", "10. A"]
  {
    var s := "10. A";
    assert DigitRunEnd(s, 1) == 2;
    assert CutAt(s, 0) && !CutAt(s, 1);
    assert forall k :: 2 <= k < 5 ==> !IsDigit(s[k]);
    assert SplitFromFixed(s, 0, 1) == SplitFromFixed(s, 0, 5);
    assert s[0..0] == "" && s[0..] == s;
  }

  /** The corrected split of two numbered steps. */
  lemma ExampleSplit(s: string)
    requires s == "1. Mix. 2. Bake."
    ensures SplitBeforeNumbersFixed(s) == ["", "1. Mix. ", "2. Bake."]
  {
    assert DigitRunEnd(s, 0) == 1 && DigitRunEnd(s, 8) == 9;
    assert CutAt(s, 0) && CutAt(s, 8);
    SplitFromFixedSkip(s, 0, 1, 8);
    SplitFromFixedSkip(s, 8, 9, 16);
    assert s[0..0] == "" && s[0..8] == "1. Mix. " && s[8..] == "2. Bake.";
  }

  /** A one-digit step `N.`, whitespace, a body and whitespace has that body. */
  lemma StepBodyOf(p: string, c: char, lead: string, w: string, trail: string)
    requires IsDigit(c) && AllSpace(lead) && AllSpace(trail)
    requires w != [] && NoEdgeSpace(w)
    requires p == [c, '.'] + lead + w + trail
    ensures NumberAt(p, 0) && StepBody(p) == w
  {
    assert p[0] == c && p[1] == '.';
    assert DigitRunEnd(p, 0) == 1;
    var b := p[2..];
    assert b == lead + w + trail;
    LeadingSpaceUnique(b, |lead|);
    var l := b[|lead|..];
    assert l == w + trail;
    TrailingStartUnique(l, |w|);
    assert l[..|w|] == w;
  }

  /** The bodies of two numbered pieces. */
  lemma StepBodiesPair(ps: seq<string>)
    requires |ps| == 2 && NumberAt(ps[0], 0) && NumberAt(ps[1], 0)
    ensures StepBodies(ps) == [StepBody(ps[0]), StepBody(ps[1])]
  {
  }

  /** The second piece of the example. */
  lemma BakeBody(p: string)
    requires p == "2. Bake."
    ensures NumberAt(p, 0) && StepBody(p) == "Bake."
  {
    assert p == ['2', '.'] + " " + "Bake." + "";
    StepBodyOf(p, '2', " ", "Bake.", "");
  }

  /** The first piece of the example. */
  lemma MixBody(p: string)
    requires p == "1. Mix. "
    ensures NumberAt(p, 0) && StepBody(p) == "Mix."
  {
    assert p == ['1', '.'] + " " + "Mix." + " ";
    StepBodyOf(p, '1', " ", "Mix.", " ");
  }

  /** Two numbered steps give their two bodies. */
  lemma FreeTextStepsExample(s: string)
    requires s == "1. Mix. 2. Bake."
    ensures FreeTextSteps(s) == ["Mix.", "Bake."]
  {
    assert NumberAt(s, 0);
    ExampleSplit(s);
    FreeTextStepsBodies(s);
    LeadingNumberNoLead(s);
    var ps := SplitBeforeNumbersFixed(s)[1..];
    assert ps[0] == "1. Mix. " && ps[1] == "2. Bake.";
    MixBody(ps[0]);
    BakeBody(ps[1]);
    StepBodiesPair(ps);
  }
}
