/**
 * The JSON-LD generator: text sanitizer, address and geo builders, and the schema
 * assembler that turns the form's flat field map into a LocalBusiness document.
 */
module JsonLd {
  import opened Wrappers
  import opened Text
  import opened OpeningHours

  /** JavaScript truthiness of an optional string: present and non-empty. */
  predicate Truthy(v: Option<string>) {
    v.Some? && v.value != ""
  }

  // ------------------------------------------------------------------ sanitizer

  /** Deletes every C0/C1 control character. */
  function RemoveControl(s: string): (r: string)
    ensures |r| <= |s|
    ensures forall i :: 0 <= i < |r| ==> !IsControl(r[i])
  {
    if s == [] then []
    else (if IsControl(s[0]) then [] else [s[0]]) + RemoveControl(s[1..])
  }

  /** No two whitespace characters are adjacent. */
  predicate NoDoubleSpace(s: string) {
    |s| < 2 || (!(IsSpace(s[0]) && IsSpace(s[1])) && NoDoubleSpace(s[1..]))
  }

  /** Replaces every maximal run of whitespace by one U+0020 (`replace(/\s+/g, ' ')`). */
  function CollapseSpaces(s: string): (r: string)
    ensures |r| <= |s|
    decreases |s|
  {
    if s == [] then []
    else if IsSpace(s[0]) then
      [' '] + CollapseSpaces(TrimStart(s[1..]))
    else
      [s[0]] + CollapseSpaces(s[1..])
  }

  /** The collapsed string uses U+0020 as its only whitespace, never two in a row, and
      starts with whitespace exactly when its input does. */
  lemma {:induction false} CollapseSpacesShape(s: string)
    ensures var r := CollapseSpaces(s);
      && (forall i :: 0 <= i < |r| && IsSpace(r[i]) ==> r[i] == ' ')
      && NoDoubleSpace(r)
      && (r != [] ==> s != [] && (IsSpace(r[0]) <==> IsSpace(s[0])))
    decreases |s|
  {
    if s != [] {
      var h := if IsSpace(s[0]) then ' ' else s[0];
      var t := if IsSpace(s[0]) then TrimStart(s[1..]) else s[1..];
      CollapseSpacesShape(t);
      var q := CollapseSpaces(t);
      var r := [h] + q;
      assert CollapseSpaces(s) == r;
      assert r[1..] == q;
      assert q != [] && IsSpace(s[0]) ==> !IsSpace(q[0]);
    }
  }

  /** Collapsing whitespace brings in no control character. */
  lemma {:induction false} CollapseKeepsNoControl(s: string)
    requires forall i :: 0 <= i < |s| ==> !IsControl(s[i])
    ensures forall i :: 0 <= i < |CollapseSpaces(s)| ==> !IsControl(CollapseSpaces(s)[i])
    decreases |s|
  {
    if s != [] {
      var h := if IsSpace(s[0]) then ' ' else s[0];
      var t := if IsSpace(s[0]) then TrimStart(s[1..]) else s[1..];
      assert forall i :: 0 <= i < |t| ==> t[i] == s[|s| - |t| + i];
      CollapseKeepsNoControl(t);
      var q := CollapseSpaces(t);
      assert CollapseSpaces(s) == [h] + q;
    }
  }

  /** The characters that survive sanitizing untouched: neither whitespace nor control. */
  predicate IsVisible(c: char) {
    !IsSpace(c) && !IsControl(c)
  }

  /** The visible characters of `s`, in order. */
  function Visible(s: string): string {
    if s == [] then [] else (if IsVisible(s[0]) then [s[0]] else []) + Visible(s[1..])
  }

  /** `sanitizeText` of the generator: trim, delete control characters, then collapse
      whitespace runs. Falsy input gives the empty string; otherwise the result keeps
      every visible character in order, holds no control character, uses U+0020 as its
      only whitespace, never two in a row, and is no longer than the input. */
  function SanitizeText(text: Option<string>): (r: string)
    ensures !Truthy(text) ==> r == ""
    ensures Truthy(text) ==> Visible(r) == Visible(text.value) && |r| <= |text.value|
    ensures forall i :: 0 <= i < |r| ==> !IsControl(r[i])
    ensures forall i :: 0 <= i < |r| && IsSpace(r[i]) ==> r[i] == ' '
    ensures NoDoubleSpace(r)
  {
    if !Truthy(text) then ""
    else
      var t := Trim(text.value);
      var u := RemoveControl(t);
      var r := CollapseSpaces(u);
      CollapseSpacesShape(u);
      CollapseKeepsNoControl(u);
      VisibleOfTrim(text.value);
      VisibleOfRemoveControl(t);
      VisibleOfCollapse(u);
      r
  }

  lemma {:induction false} VisibleAppend(a: string, b: string)
    ensures Visible(a + b) == Visible(a) + Visible(b)
  {
    if a == [] {
      assert a + b == b;
    } else {
      var h := if IsVisible(a[0]) then [a[0]] else [];
      assert (a + b)[0] == a[0];
      assert (a + b)[1..] == a[1..] + b;
      VisibleAppend(a[1..], b);
      calc {
        Visible(a + b);
        h + Visible(a[1..] + b);
        h + (Visible(a[1..]) + Visible(b));
        (h + Visible(a[1..])) + Visible(b);
      }
    }
  }

  lemma {:induction false} VisibleOfSpaces(s: string)
    requires forall i :: 0 <= i < |s| ==> IsSpace(s[i])
    ensures Visible(s) == []
  {
    if s != [] {
      VisibleOfSpaces(s[1..]);
    }
  }

  lemma VisibleOfTrimStart(s: string)
    ensures Visible(TrimStart(s)) == Visible(s)
  {
    var r := TrimStart(s);
    assert s == s[..|s| - |r|] + r;
    VisibleAppend(s[..|s| - |r|], r);
    VisibleOfSpaces(s[..|s| - |r|]);
  }

  lemma VisibleOfTrimEnd(s: string)
    ensures Visible(TrimEnd(s)) == Visible(s)
  {
    var r := TrimEnd(s);
    var q := s[|r|..];
    assert s == r + q;
    assert forall i :: 0 <= i < |q| ==> IsSpace(q[i]) by {
      forall i | 0 <= i < |q| ensures IsSpace(q[i]) {
        assert q[i] == s[|r| + i];
      }
    }
    VisibleAppend(r, q);
    VisibleOfSpaces(q);
  }

  lemma VisibleOfTrim(s: string)
    ensures Visible(Trim(s)) == Visible(s)
  {
    assert Trim(s) == TrimEnd(TrimStart(s));
    VisibleOfTrimStart(s);
    VisibleOfTrimEnd(TrimStart(s));
  }

  lemma {:induction false} VisibleOfRemoveControl(s: string)
    ensures Visible(RemoveControl(s)) == Visible(s)
  {
    if s != [] {
      VisibleOfRemoveControl(s[1..]);
      VisibleAppend(if IsControl(s[0]) then [] else [s[0]], RemoveControl(s[1..]));
    }
  }

  lemma {:induction false} VisibleOfCollapse(s: string)
    ensures Visible(CollapseSpaces(s)) == Visible(s)
    decreases |s|
  {
    if s != [] {
      if IsSpace(s[0]) {
        var t := TrimStart(s[1..]);
        VisibleOfCollapse(t);
        VisibleOfTrimStart(s[1..]);
        VisibleAppend([' '], CollapseSpaces(t));
      } else {
        VisibleOfCollapse(s[1..]);
        VisibleAppend([s[0]], CollapseSpaces(s[1..]));
      }
    }
  }

  // ------------------------------------------------------- where the spaces go

  /** Every character is whitespace. */
  predicate AllSpace(w: string) {
    forall c :: c in w ==> IsSpace(c)
  }

  /** Every character is a control character. */
  predicate AllControl(w: string) {
    forall c :: c in w ==> IsControl(c)
  }

  /** Collapsing works piecewise across a cut made after a non-whitespace character. */
  lemma {:induction false} CollapseAppend(a: string, b: string)
    requires a == [] || !IsSpace(a[|a| - 1])
    ensures CollapseSpaces(a + b) == CollapseSpaces(a) + CollapseSpaces(b)
    decreases |a|
  {
    if a == [] {
      assert a + b == b;
    } else if IsSpace(a[0]) {
      assert |a| >= 2;
      TrimStartKeepsLast(a[1..]);
      CollapseAppend(TrimStart(a[1..]), b);
      CollapseAppendSpaceStep(a, b);
    } else {
      CollapseAppend(a[1..], b);
      CollapseAppendCharStep(a, b);
    }
  }

  lemma CollapseAppendSpaceStep(a: string, b: string)
    requires |a| >= 2 && IsSpace(a[0]) && !IsSpace(a[|a| - 1])
    requires CollapseSpaces(TrimStart(a[1..]) + b) == CollapseSpaces(TrimStart(a[1..])) + CollapseSpaces(b)
    ensures CollapseSpaces(a + b) == CollapseSpaces(a) + CollapseSpaces(b)
  {
    var t := TrimStart(a[1..]);
    var u := TrimStart((a + b)[1..]);
    SpaceTail(a, b);
    assert u == t + b;
    CollapseSpaceHead(a + b);
    CollapseSpaceHead(a);
    ConsAssoc([' '], CollapseSpaces(t), CollapseSpaces(b));
  }

  lemma SpaceTail(a: string, b: string)
    requires |a| >= 2 && !IsSpace(a[|a| - 1])
    ensures (a + b)[0] == a[0]
    ensures TrimStart((a + b)[1..]) == TrimStart(a[1..]) + b
  {
    assert (a + b)[1..] == a[1..] + b;
    TrimStartAppend(a[1..], b);
  }

  lemma CollapseAppendCharStep(a: string, b: string)
    requires a != [] && !IsSpace(a[0])
    requires CollapseSpaces(a[1..] + b) == CollapseSpaces(a[1..]) + CollapseSpaces(b)
    ensures CollapseSpaces(a + b) == CollapseSpaces(a) + CollapseSpaces(b)
  {
    assert (a + b)[0] == a[0];
    assert (a + b)[1..] == a[1..] + b;
    CollapseCharHead(a + b);
    CollapseCharHead(a);
    ConsAssoc([a[0]], CollapseSpaces(a[1..]), CollapseSpaces(b));
  }

  lemma ConsAssoc(h: string, x: string, y: string)
    ensures h + (x + y) == h + x + y
  {
  }

  lemma CollapseSpaceHead(s: string)
    requires s != [] && IsSpace(s[0])
    ensures CollapseSpaces(s) == [' '] + CollapseSpaces(TrimStart(s[1..]))
  {
  }

  lemma CollapseCharHead(s: string)
    requires s != [] && !IsSpace(s[0])
    ensures CollapseSpaces(s) == [s[0]] + CollapseSpaces(s[1..])
  {
  }

  /** A run of whitespace followed by text that does not start with whitespace becomes
      one U+0020 in front of that text. */
  lemma CollapseSpaceRun(w: string, b: string)
    requires w != [] && AllSpace(w)
    requires b == [] || !IsSpace(b[0])
    ensures CollapseSpaces(w + b) == [' '] + CollapseSpaces(b)
  {
    assert (w + b)[0] == w[0];
    assert (w + b)[1..] == w[1..] + b;
    TrimStartSpaces(w[1..], b);
  }

  /** Text without whitespace is left as it is. */
  lemma {:induction false} CollapseNoSpace(v: string)
    requires NoSpace(v)
    ensures CollapseSpaces(v) == v
  {
    if v != [] {
      assert NoSpace(v[1..]) by {
        assert forall i :: 0 <= i < |v| - 1 ==> v[1..][i] == v[i + 1];
      }
      CollapseNoSpace(v[1..]);
    }
  }

  /** `replace(/\s+/g, ' ')` in one statement: a maximal whitespace run `w` between `a`
      and `b` becomes exactly one U+0020, and the text on either side is collapsed on
      its own. With `CollapseNoSpace` this pins down the result on every input. */
  lemma CollapseJoinsRun(a: string, w: string, b: string)
    requires a == [] || !IsSpace(a[|a| - 1])
    requires w != [] && AllSpace(w)
    requires b == [] || !IsSpace(b[0])
    ensures CollapseSpaces(a + w + b) == CollapseSpaces(a) + [' '] + CollapseSpaces(b)
  {
    assert a + w + b == a + (w + b);
    CollapseAppend(a, w + b);
    CollapseSpaceRun(w, b);
    ConsAssoc(CollapseSpaces(a), [' '], CollapseSpaces(b));
  }

  lemma {:induction false} RemoveControlAppend(x: string, y: string)
    ensures RemoveControl(x + y) == RemoveControl(x) + RemoveControl(y)
  {
    if x == [] {
      assert x + y == y;
    } else {
      assert (x + y)[0] == x[0];
      assert (x + y)[1..] == x[1..] + y;
      RemoveControlAppend(x[1..], y);
    }
  }

  /** Text without control characters is left as it is. */
  lemma {:induction false} RemoveControlNone(v: string)
    requires forall i :: 0 <= i < |v| ==> !IsControl(v[i])
    ensures RemoveControl(v) == v
  {
    if v != [] {
      assert forall i :: 0 <= i < |v| - 1 ==> v[1..][i] == v[i + 1];
      RemoveControlNone(v[1..]);
    }
  }

  /** Deleting control characters keeps exactly the other characters. */
  lemma {:induction false} RemoveControlMembers(s: string)
    ensures forall c :: c in RemoveControl(s) <==> c in s && !IsControl(c)
  {
    if s != [] {
      RemoveControlMembers(s[1..]);
      assert s == [s[0]] + s[1..];
    }
  }

  /** Deleting control characters from whitespace leaves whitespace, and leaves nothing
      exactly when every character was a control character. */
  lemma RemoveControlOfSpaces(w: string)
    requires AllSpace(w)
    ensures AllSpace(RemoveControl(w))
    ensures RemoveControl(w) == [] <==> AllControl(w)
  {
    RemoveControlMembers(w);
    if RemoveControl(w) != [] {
      assert RemoveControl(w)[0] in RemoveControl(w);
    }
  }

  lemma RemoveControlKeepsLast(t: string)
    requires t != [] && !IsControl(t[|t| - 1])
    ensures var u := RemoveControl(t); u != [] && u[|u| - 1] == t[|t| - 1]
  {
    var c := t[|t| - 1];
    assert t == t[..|t| - 1] + [c];
    RemoveControlAppend(t[..|t| - 1], [c]);
    assert [c][1..] == [];
  }

  /** Trimmed text that ends in a visible character keeps it at the end once control
      characters are gone. */
  lemma RemoveControlEndsVisible(a: string)
    requires a != [] && IsVisible(a[|a| - 1])
    ensures var u := RemoveControl(Trim(a)); u != [] && !IsSpace(u[|u| - 1])
  {
    TrimStartKeepsLast(a);
    RemoveControlKeepsLast(Trim(a));
  }

  /** Trimmed text that starts with a visible character keeps it at the front once
      control characters are gone. */
  lemma RemoveControlStartsVisible(b: string)
    requires b != [] && IsVisible(b[0])
    ensures var u := RemoveControl(Trim(b)); u != [] && !IsSpace(u[0])
  {
    TrimAroundBack([], [], b);
    TrimIsBothEnds(b);
    var t := Trim(b);
    assert t == b[..|t|];
    assert t != [] && t[0] == b[0];
  }

  /** Between two visible characters the sanitizer keeps the text on either side as it
      would sanitize it alone, and turns the whitespace between them into one U+0020 —
      unless every whitespace character there is also a control character (tab, line
      feed, vertical tab, form feed, carriage return), in which case the two sides are
      joined with nothing between them (`"a\nb"` gives `"ab"`). */
  lemma SanitizeJoinsWords(a: string, w: string, b: string)
    requires a != [] && IsVisible(a[|a| - 1])
    requires b != [] && IsVisible(b[0])
    requires AllSpace(w)
    ensures SanitizeText(Some(a + w + b))
            == SanitizeText(Some(a)) + (if AllControl(w) then "" else " ") + SanitizeText(Some(b))
  {
    SanitizeSteps(a + w + b);
    SanitizeSteps(a);
    SanitizeSteps(b);
    SanitizePipelineJoins(a, w, b);
  }

  lemma SanitizePipelineJoins(a: string, w: string, b: string)
    requires a != [] && IsVisible(a[|a| - 1])
    requires b != [] && IsVisible(b[0])
    requires AllSpace(w)
    ensures CollapseSpaces(RemoveControl(Trim(a + w + b)))
            == CollapseSpaces(RemoveControl(Trim(a))) + (if AllControl(w) then "" else " ")
               + CollapseSpaces(RemoveControl(Trim(b)))
  {
    var x, v, y := RemoveControl(Trim(a)), RemoveControl(w), RemoveControl(Trim(b));
    var gone := AllControl(w);
    assert x != [] && !IsSpace(x[|x| - 1]) by {
      RemoveControlEndsVisible(a);
    }
    assert y != [] && !IsSpace(y[0]) by {
      RemoveControlStartsVisible(b);
    }
    assert AllSpace(v) && (v == [] <==> gone) by {
      RemoveControlOfSpaces(w);
    }
    assert RemoveControl(Trim(a + w + b)) == x + v + y by {
      RemoveControlAround(a, w, b);
    }
    CollapseAroundRun(x, v, y, gone);
  }

  lemma RemoveControlAround(a: string, w: string, b: string)
    requires a != [] && !IsSpace(a[|a| - 1])
    requires b != [] && !IsSpace(b[0])
    ensures RemoveControl(Trim(a + w + b))
            == RemoveControl(Trim(a)) + RemoveControl(w) + RemoveControl(Trim(b))
  {
    TrimAround(a, w, b);
    RemoveControlAppend(Trim(a) + w, Trim(b));
    RemoveControlAppend(Trim(a), w);
  }

  /** Collapsing across a possibly empty whitespace run between two non-whitespace
      characters. */
  lemma CollapseAroundRun(x: string, v: string, y: string, gone: bool)
    requires x != [] && !IsSpace(x[|x| - 1])
    requires y != [] && !IsSpace(y[0])
    requires AllSpace(v) && (v == [] <==> gone)
    ensures CollapseSpaces(x + v + y)
            == CollapseSpaces(x) + (if gone then "" else " ") + CollapseSpaces(y)
  {
    if v == [] {
      assert x + v + y == x + y;
      CollapseAppend(x, y);
    } else {
      CollapseJoinsRun(x, v, y);
    }
  }

  /** A word of visible characters is its own sanitized form. */
  lemma SanitizeKeepsWord(v: string)
    requires v != [] && forall i :: 0 <= i < |v| ==> IsVisible(v[i])
    ensures SanitizeText(Some(v)) == v
  {
    SanitizeSteps(v);
    TrimOfTrimmed(v);
    RemoveControlNone(v);
    CollapseNoSpace(v);
  }

  /** Two words of visible characters separated by one whitespace character: the
      separator becomes one U+0020, unless it is also a control character (tab, line
      feed, vertical tab, form feed, carriage return), which is deleted before whitespace
      is collapsed, so the words run together (`"a b"` stays `"a b"`, `"a\nb"` gives
      `"ab"`). */
  lemma SanitizeTwoWords(a: string, c: char, b: string)
    requires a != [] && forall i :: 0 <= i < |a| ==> IsVisible(a[i])
    requires b != [] && forall i :: 0 <= i < |b| ==> IsVisible(b[i])
    requires IsSpace(c)
    ensures SanitizeText(Some(a + [c] + b)) == a + (if IsControl(c) then "" else " ") + b
  {
    var mid: string := if IsControl(c) then "" else " ";
    assert SanitizeText(Some(a + [c] + b)) == SanitizeText(Some(a)) + mid + SanitizeText(Some(b)) by {
      assert AllSpace([c]) && (AllControl([c]) <==> IsControl(c)) by {
        assert c in [c];
      }
      SanitizeJoinsWords(a, [c], b);
    }
    assert SanitizeText(Some(a)) == a by {
      SanitizeKeepsWord(a);
    }
    assert SanitizeText(Some(b)) == b by {
      SanitizeKeepsWord(b);
    }
  }

  /** The generator's sanitizer is not idempotent: trimming runs before control
      characters are deleted, so a space hidden behind a control character survives
      the first pass and is trimmed by the second (`"\u0000 x"` gives `" x"`, which
      gives `"x"`). */
  lemma SanitizeNotIdempotent(c: char, x: char)
    requires IsControl(c) && !IsSpace(c) && IsVisible(x)
    ensures SanitizeText(Some([c, ' ', x])) == [' ', x]
    ensures SanitizeText(Some([' ', x])) == [x]
    ensures SanitizeText(Some(SanitizeText(Some([c, ' ', x])))) != SanitizeText(Some([c, ' ', x]))
  {
    SanitizeHiddenSpace(c, x);
    SanitizeLeadingSpace(x);
  }

  lemma SanitizeSteps(s: string)
    requires s != ""
    ensures SanitizeText(Some(s)) == CollapseSpaces(RemoveControl(Trim(s)))
  {
  }

  lemma SanitizeHiddenSpace(c: char, x: char)
    requires IsControl(c) && !IsSpace(c) && IsVisible(x)
    ensures SanitizeText(Some([c, ' ', x])) == [' ', x]
  {
    SanitizeSteps([c, ' ', x]);
    HiddenSpacePipeline(c, x);
  }

  lemma HiddenSpacePipeline(c: char, x: char)
    requires IsControl(c) && !IsSpace(c) && IsVisible(x)
    ensures CollapseSpaces(RemoveControl(Trim([c, ' ', x]))) == [' ', x]
  {
    TrimOfTrimmed([c, ' ', x]);
    RemoveHiddenSpaceControl(c, x);
    CollapseLeadingSpace(x);
  }

  lemma RemoveHiddenSpaceControl(c: char, x: char)
    requires IsControl(c) && IsVisible(x)
    ensures RemoveControl([c, ' ', x]) == [' ', x]
  {
    var s := [c, ' ', x];
    assert RemoveControl([' ', x]) == [' ', x] by {
      CollapseSingle(x);
      assert [' ', x][1..] == [x];
    }
    assert s[1..] == [' ', x];
  }

  lemma SanitizeLeadingSpace(x: char)
    requires IsVisible(x)
    ensures SanitizeText(Some([' ', x])) == [x]
  {
    SanitizeSteps([' ', x]);
    LeadingSpacePipeline(x);
  }

  lemma LeadingSpacePipeline(x: char)
    requires IsVisible(x)
    ensures CollapseSpaces(RemoveControl(Trim([' ', x]))) == [x]
  {
    TrimDropsLeading(' ', [x]);
    assert [' '] + [x] == [' ', x];
    CollapseSingle(x);
  }

  lemma CollapseLeadingSpace(x: char)
    requires IsVisible(x)
    ensures CollapseSpaces([' ', x]) == [' ', x]
  {
    var s := [' ', x];
    assert s[1..] == [x];
    assert TrimStart([x]) == [x];
    CollapseSingle(x);
  }

  lemma RemoveControlCons(c: char, rest: string)
    ensures RemoveControl([c] + rest) == (if IsControl(c) then [] else [c]) + RemoveControl(rest)
  {
    assert ([c] + rest)[1..] == rest;
  }

  lemma CollapseCons(c: char, rest: string)
    requires !IsSpace(c)
    ensures CollapseSpaces([c] + rest) == [c] + CollapseSpaces(rest)
  {
    assert ([c] + rest)[1..] == rest;
  }

  lemma CollapseSingle(x: char)
    requires IsVisible(x)
    ensures CollapseSpaces([x]) == [x]
    ensures RemoveControl([x]) == [x]
  {
    assert [x][1..] == [];
  }

  /** One leading whitespace character before otherwise trimmed text is dropped. */
  lemma TrimDropsLeading(c: char, s: string)
    requires IsSpace(c) && s != [] && !IsSpace(s[0]) && !IsSpace(s[|s| - 1])
    ensures Trim([c] + s) == s
  {
    assert ([c] + s)[1..] == s;
    assert TrimStart(s) == s;
    assert TrimStart([c] + s) == s;
    assert TrimEnd(s) == s;
  }

  /** Control characters are deleted, not turned into spaces (`"A\u0000B\u001F"` gives
      `"AB"`). */
  lemma SanitizeDeletesControls(a: char, c1: char, b: char, c2: char)
    requires IsVisible(a) && IsVisible(b) && IsControl(c1) && IsControl(c2) && !IsSpace(c2)
    ensures SanitizeText(Some([a, c1, b, c2])) == [a, b]
  {
    SanitizeSteps([a, c1, b, c2]);
    ControlsPipeline(a, c1, b, c2);
  }

  lemma ControlsPipeline(a: char, c1: char, b: char, c2: char)
    requires IsVisible(a) && IsVisible(b) && IsControl(c1) && IsControl(c2) && !IsSpace(c2)
    ensures CollapseSpaces(RemoveControl(Trim([a, c1, b, c2]))) == [a, b]
  {
    TrimOfTrimmed([a, c1, b, c2]);
    RemoveInterleavedControls(a, c1, b, c2);
    CollapseVisiblePair(a, b);
  }

  lemma RemoveInterleavedControls(a: char, c1: char, b: char, c2: char)
    requires IsVisible(a) && IsVisible(b) && IsControl(c1) && IsControl(c2)
    ensures RemoveControl([a, c1, b, c2]) == [a, b]
  {
    var s := [a, c1, b, c2];
    assert RemoveControl([c2]) == [] by {
      assert [c2][1..] == [];
    }
    assert RemoveControl([b, c2]) == [b] by {
      assert [b, c2][1..] == [c2];
    }
    assert RemoveControl([c1, b, c2]) == [b] by {
      assert [c1, b, c2][1..] == [b, c2];
    }
    assert s[1..] == [c1, b, c2];
  }

  lemma CollapseVisiblePair(a: char, b: char)
    requires IsVisible(a) && IsVisible(b)
    ensures CollapseSpaces([a, b]) == [a, b]
  {
    CollapseSingle(b);
    assert [a, b][1..] == [b];
  }

  // -------------------------------------------------------------------- input

  /** The form's field map. `None` is an absent key, `Some("")` a key present with an
      empty value; `extraKeys` counts keys the engine does not read. */
  datatype FormData = FormData(
    businessName: Option<string>,
    businessType: Option<string>,
    description: Option<string>,
    phone: Option<string>,
    website: Option<string>,
    email: Option<string>,
    streetAddress: Option<string>,
    city: Option<string>,
    state: Option<string>,
    postalCode: Option<string>,
    country: Option<string>,
    latitude: Option<string>,
    longitude: Option<string>,
    priceRange: Option<string>,
    open24Hours: Option<bool>,
    openingHours: Option<map<string, Hours>>,
    extraKeys: nat)

  function Present<T>(v: Option<T>): nat {
    if v.Some? then 1 else 0
  }

  /** `Object.keys(formData).length`. */
  function KeyCount(f: FormData): nat {
    Present(f.businessName) + Present(f.businessType) + Present(f.description)
    + Present(f.phone) + Present(f.website) + Present(f.email)
    + Present(f.streetAddress) + Present(f.city) + Present(f.state)
    + Present(f.postalCode) + Present(f.country) + Present(f.latitude)
    + Present(f.longitude) + Present(f.priceRange) + Present(f.open24Hours)
    + Present(f.openingHours) + f.extraKeys
  }

  const EmptyForm: FormData := FormData(None, None, None, None, None, None, None, None,
                                        None, None, None, None, None, None, None, None, 0)

  lemma KeyCountZeroIff(f: FormData)
    ensures KeyCount(f) == 0 <==> f == EmptyForm
  {
  }

  // ----------------------------------------------------------------- document

  /** A PostalAddress; its `@type` key is implicit. */
  datatype PostalAddress = PostalAddress(
    streetAddress: Option<string>,
    addressLocality: Option<string>,
    addressRegion: Option<string>,
    postalCode: Option<string>,
    addressCountry: Option<string>)

  /** `Object.keys(address).length`, `@type` included. */
  function AddressKeyCount(a: PostalAddress): nat {
    1 + Present(a.streetAddress) + Present(a.addressLocality) + Present(a.addressRegion)
    + Present(a.postalCode) + Present(a.addressCountry)
  }

  /** A GeoCoordinates value; `None` is a coordinate that is not of JavaScript type
      `number` (only documents built elsewhere can have one). */
  datatype Geo = Geo(latitude: Option<real>, longitude: Option<real>)

  /** A LocalBusiness document. Keys are listed in the order the generator inserts them;
      `None` is an absent key. */
  datatype Document = Document(
    context: string,
    typ: string,
    name: Option<string>,
    address: Option<PostalAddress>,
    telephone: Option<string>,
    url: Option<string>,
    email: Option<string>,
    description: Option<string>,
    priceRange: Option<string>,
    geo: Option<Geo>,
    openingHoursSpecification: Option<seq<Spec>>)

  /** `Object.keys(document).length`. */
  function DocKeyCount(d: Document): nat {
    2 + Present(d.name) + Present(d.address) + Present(d.telephone) + Present(d.url)
    + Present(d.email) + Present(d.description) + Present(d.priceRange) + Present(d.geo)
    + Present(d.openingHoursSpecification)
  }

  const SchemaContext: string := "https://schema.org"

  /** The illustrative document shown for an empty form. */
  const EmptySchema: Document := Document(
    SchemaContext, "LocalBusiness", Some("Your Business Name"),
    Some(PostalAddress(Some("123 Main Street"), Some("City"), Some("State"), Some("12345"), Some("US"))),
    Some("(555) 123-4567"), None, None, None, None, None, None)

  // ------------------------------------------------------------------ builders

  /** A form value copied only when truthy. */
  function CopyIfTruthy(v: Option<string>): (r: Option<string>)
    ensures r.Some? <==> Truthy(v)
    ensures r.Some? ==> r == v
  {
    if Truthy(v) then v else None
  }

  /** A form value sanitized and set only when truthy. */
  function SanitizeIfTruthy(v: Option<string>): (r: Option<string>)
    ensures r.Some? <==> Truthy(v)
    ensures r.Some? ==> r.value == SanitizeText(v)
  {
    if Truthy(v) then Some(SanitizeText(v)) else None
  }

  /** `buildAddress`: a field is set exactly when its form source is truthy; street,
      city and state go through the sanitizer, postal code and country are copied. */
  function BuildAddress(f: FormData): (a: PostalAddress)
    ensures a.streetAddress.Some? <==> Truthy(f.streetAddress)
    ensures a.addressLocality.Some? <==> Truthy(f.city)
    ensures a.addressRegion.Some? <==> Truthy(f.state)
    ensures a.postalCode.Some? <==> Truthy(f.postalCode)
    ensures a.addressCountry.Some? <==> Truthy(f.country)
    ensures a.streetAddress.Some? ==> a.streetAddress.value == SanitizeText(f.streetAddress)
    ensures a.addressLocality.Some? ==> a.addressLocality.value == SanitizeText(f.city)
    ensures a.addressRegion.Some? ==> a.addressRegion.value == SanitizeText(f.state)
    ensures a.postalCode.Some? ==> a.postalCode == f.postalCode
    ensures a.addressCountry.Some? ==> a.addressCountry == f.country
  {
    PostalAddress(
      SanitizeIfTruthy(f.streetAddress),
      SanitizeIfTruthy(f.city),
      SanitizeIfTruthy(f.state),
      CopyIfTruthy(f.postalCode),
      CopyIfTruthy(f.country))
  }

  /** The address object has a key besides `@type` exactly when one of the five
      address fields of the form is truthy. */
  lemma AddressNonEmptyIff(f: FormData)
    ensures AddressKeyCount(BuildAddress(f)) > 1 <==>
      (Truthy(f.streetAddress) || Truthy(f.city) || Truthy(f.state)
       || Truthy(f.postalCode) || Truthy(f.country))
  {
  }

  /** `buildGeoCoordinates`: coordinates exactly when both fields are truthy and both
      parse; no range check happens here. `parseFloat` is a parameter (`None` = NaN). */
  function BuildGeoCoordinates(f: FormData, parseFloat: string -> Option<real>): (g: Option<Geo>)
    ensures g.Some? <==> Truthy(f.latitude) && Truthy(f.longitude)
                         && parseFloat(f.latitude.value).Some? && parseFloat(f.longitude.value).Some?
    ensures g.Some? ==> (g.value.latitude == parseFloat(f.latitude.value)
                         && g.value.longitude == parseFloat(f.longitude.value))
  {
    if !Truthy(f.latitude) || !Truthy(f.longitude) then None
    else
      var lat := parseFloat(f.latitude.value);
      var lng := parseFloat(f.longitude.value);
      if lat.None? || lng.None? then None else Some(Geo(lat, lng))
  }

  /** The form's opening hours, compiled. */
  function FormOpeningHours(f: FormData): seq<Spec> {
    BuildOpeningHours(f.open24Hours == Some(true), f.openingHours)
  }

  // ----------------------------------------------------------------- assembler

  /** The document `generate` assembles from a non-empty form: `@context` is fixed,
      `@type` is the business type or `LocalBusiness`, and each optional key is present
      exactly when its source is. */
  function Assemble(f: FormData, parseFloat: string -> Option<real>): (d: Document)
    ensures d.context == SchemaContext
    ensures d.typ == (if Truthy(f.businessType) then f.businessType.value else "LocalBusiness")
    ensures d.name.Some? <==> Truthy(f.businessName)
    ensures d.name.Some? ==> d.name.value == SanitizeText(f.businessName)
    ensures d.address.Some? <==> (Truthy(f.streetAddress) || Truthy(f.city) || Truthy(f.state)
                                  || Truthy(f.postalCode) || Truthy(f.country))
    ensures d.address.Some? ==> d.address.value == BuildAddress(f)
    ensures d.telephone.Some? <==> Truthy(f.phone)
    ensures d.telephone.Some? ==> d.telephone == f.phone
    ensures d.url.Some? <==> Truthy(f.website)
    ensures d.url.Some? ==> d.url == f.website
    ensures d.email.Some? <==> Truthy(f.email)
    ensures d.email.Some? ==> d.email == f.email
    ensures d.priceRange.Some? <==> Truthy(f.priceRange)
    ensures d.priceRange.Some? ==> d.priceRange == f.priceRange
    ensures d.description.Some? <==> Truthy(f.description)
    ensures d.description.Some? ==> d.description.value == SanitizeText(f.description)
    ensures d.geo == BuildGeoCoordinates(f, parseFloat)
    ensures d.openingHoursSpecification.Some? <==> |FormOpeningHours(f)| > 0
    ensures d.openingHoursSpecification.Some? ==> d.openingHoursSpecification.value == FormOpeningHours(f)
  {
    var addr := BuildAddress(f);
    var hours := FormOpeningHours(f);
    AddressNonEmptyIff(f);
    Document(
      SchemaContext,
      if Truthy(f.businessType) then f.businessType.value else "LocalBusiness",
      SanitizeIfTruthy(f.businessName),
      if AddressKeyCount(addr) > 1 then Some(addr) else None,
      CopyIfTruthy(f.phone),
      CopyIfTruthy(f.website),
      CopyIfTruthy(f.email),
      SanitizeIfTruthy(f.description),
      CopyIfTruthy(f.priceRange),
      BuildGeoCoordinates(f, parseFloat),
      if |hours| > 0 then Some(hours) else None)
  }

  /** `generate`: an absent or empty form gives the placeholder document; any other
      form gives the assembled document. */
  function Generate(input: Option<FormData>, parseFloat: string -> Option<real>): (d: Document)
    ensures input.None? || input.value == EmptyForm ==> d == EmptySchema
    ensures input.Some? && input.value != EmptyForm ==> d == Assemble(input.value, parseFloat)
  {
    if input.None? || input.value == EmptyForm then EmptySchema
    else Assemble(input.value, parseFloat)
  }

  /** An empty form yields the placeholder named "Your Business Name". */
  lemma EmptyFormGivesPlaceholder(parseFloat: string -> Option<real>)
    ensures Generate(Some(EmptyForm), parseFloat) == EmptySchema
    ensures Generate(Some(EmptyForm), parseFloat).name == Some("Your Business Name")
  {
  }

  /** A form whose only key is one the engine does not read is not empty: it yields the
      bare `@context`/`@type` skeleton, not the placeholder. */
  lemma UnknownKeyGivesSkeleton(parseFloat: string -> Option<real>)
    ensures DocKeyCount(Generate(Some(EmptyForm.(extraKeys := 1)), parseFloat)) == 2
  {
  }

  // ------------------------------------------------------------------- fixture

  /** `generateExample`: the sample form data. */
  const ExampleForm: FormData := FormData(
    Some("Acme Coffee Shop"), Some("Restaurant"),
    Some("Artisanal coffee and fresh pastries in downtown"),
    Some("(555) 123-4567"), Some("https://acmecoffee.com"), Some("hello@acmecoffee.com"),
    Some("123 Main Street"), Some("Anytown"), Some("CA"), Some("90210"), Some("US"),
    Some("34.0522"), Some("-118.2437"), Some("$$"), None,
    Some(map[
      "monday" := Hours("07:00", "19:00"),
      "tuesday" := Hours("07:00", "19:00"),
      "wednesday" := Hours("07:00", "19:00"),
      "thursday" := Hours("07:00", "19:00"),
      "friday" := Hours("07:00", "20:00"),
      "saturday" := Hours("08:00", "20:00"),
      "sunday" := Hours("08:00", "18:00")]),
    0)

  /** The sample week compiles to four entries: Monday to Thursday together, then
      Friday, Saturday and Sunday each on their own. */
  lemma ExampleHoursGiveFourSpecs()
    ensures FormOpeningHours(ExampleForm) == [
      Spec(Days([Monday, Tuesday, Wednesday, Thursday]), "07:00", "19:00"),
      Spec(OneDay(Friday), "07:00", "20:00"),
      Spec(OneDay(Saturday), "08:00", "20:00"),
      Spec(OneDay(Sunday), "08:00", "18:00")]
  {
    ExampleGroups();
  }

  /** The sample week groups into Monday to Thursday, then Friday, Saturday and Sunday. */
  lemma ExampleGroups()
    ensures GroupConsecutive(ExampleForm.openingHours.value) == [
      Group([Monday, Tuesday, Wednesday, Thursday], "07:00", "19:00"),
      Group([Friday], "07:00", "20:00"),
      Group([Saturday], "08:00", "20:00"),
      Group([Sunday], "08:00", "18:00")]
  {
    var a, b, c, e := Hours("07:00", "19:00"), Hours("07:00", "20:00"),
                      Hours("08:00", "20:00"), Hours("08:00", "18:00");
    var slots := [Some(a), Some(a), Some(a), Some(a), Some(b), Some(c), Some(e)];
    ExampleSlots();
    ExampleRuns(slots, a, b, c, e);
  }

  lemma ExampleSlots()
    ensures SlotsOf(ExampleForm.openingHours.value) == [
      Some(Hours("07:00", "19:00")), Some(Hours("07:00", "19:00")),
      Some(Hours("07:00", "19:00")), Some(Hours("07:00", "19:00")),
      Some(Hours("07:00", "20:00")), Some(Hours("08:00", "20:00")),
      Some(Hours("08:00", "18:00"))]
  {
  }

  lemma ExampleRuns(slots: Slots, a: Hours, b: Hours, c: Hours, e: Hours)
    requires a == Hours("07:00", "19:00") && b == Hours("07:00", "20:00")
    requires c == Hours("08:00", "20:00") && e == Hours("08:00", "18:00")
    requires slots == [Some(a), Some(a), Some(a), Some(a), Some(b), Some(c), Some(e)]
    ensures GroupsFrom(slots, 0) == [
      Group([Monday, Tuesday, Wednesday, Thursday], "07:00", "19:00"),
      Group([Friday], "07:00", "20:00"),
      Group([Saturday], "08:00", "20:00"),
      Group([Sunday], "08:00", "18:00")]
  {
    assert Signature(a)[6] != Signature(b)[6] && Signature(b)[1] != Signature(c)[1]
        && Signature(c)[6] != Signature(e)[6];
    assert RunEnd(slots, Signature(a), 1) == 4;
    assert RunEnd(slots, Signature(b), 5) == 5;
    assert RunEnd(slots, Signature(c), 6) == 6;
    assert RunEnd(slots, Signature(e), 7) == 7;
    assert GroupsFrom(slots, 7) == [];
    assert Week[6..7] == [Sunday] && Week[5..6] == [Saturday] && Week[4..5] == [Friday];
    assert Week[0..4] == [Monday, Tuesday, Wednesday, Thursday];
    assert GroupsFrom(slots, 6) == [Group([Sunday], "08:00", "18:00")];
    assert GroupsFrom(slots, 5) == [Group([Saturday], "08:00", "20:00")] + GroupsFrom(slots, 6);
    assert GroupsFrom(slots, 4) == [Group([Friday], "07:00", "20:00")] + GroupsFrom(slots, 5);
  }
}
