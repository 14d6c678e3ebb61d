/**
 * The geocoder's pure helpers: the address line sent to the geocoding service, the
 * cache key derived from it, the reading of a Nominatim reply, the fixed-window rate
 * limiter and the coordinate check. The network calls and the cache are not modelled;
 * the clock reading and `parseFloat` are parameters.
 */
module Geocoder {
  import opened Wrappers
  import opened Text
  import JsonLd
  import Validators

  // ------------------------------------------------------------ address string

  /** The address fields the geocoder reads, in the order it joins them. */
  function AddressFields(f: JsonLd.FormData): seq<Option<string>> {
    [f.streetAddress, f.city, f.state, f.postalCode, f.country]
  }

  /** How many entries of `vs` are truthy. */
  function CountTruthy(vs: seq<Option<string>>): nat {
    if vs == [] then 0 else (if JsonLd.Truthy(vs[0]) then 1 else 0) + CountTruthy(vs[1..])
  }

  /** The values of the truthy entries of `vs`, in order: there are as many parts as
      truthy entries, and the truthy entry at index `i` is the part whose position is
      the number of truthy entries before `i`. */
  function TruthyValues(vs: seq<Option<string>>): (parts: seq<string>)
    ensures |parts| == CountTruthy(vs)
    ensures forall i :: 0 <= i < |vs| && JsonLd.Truthy(vs[i]) ==>
              CountTruthy(vs[..i]) < |parts| && parts[CountTruthy(vs[..i])] == vs[i].value
    ensures forall i :: 0 <= i < |parts| ==> parts[i] != ""
    ensures parts == [] <==> forall i :: 0 <= i < |vs| ==> !JsonLd.Truthy(vs[i])
  {
    if vs == [] then []
    else
      var rest := TruthyValues(vs[1..]);
      var h: seq<string> := if JsonLd.Truthy(vs[0]) then [vs[0].value] else [];
      assert forall i :: 1 <= i < |vs| ==> vs[i] == vs[1..][i - 1];
      assert forall i :: 1 <= i <= |vs| ==> CountTruthy(vs[..i]) == |h| + CountTruthy(vs[1..][..i - 1]) by {
        forall i | 1 <= i <= |vs| ensures CountTruthy(vs[..i]) == |h| + CountTruthy(vs[1..][..i - 1]) {
          CountTruthyPrefix(vs, i);
        }
      }
      assert CountTruthy(vs[..0]) == 0;
      h + rest
  }

  /** Counting the truthy entries of a non-empty prefix looks at its first entry, then
      at the rest of the prefix. */
  lemma CountTruthyPrefix(vs: seq<Option<string>>, i: int)
    requires 1 <= i <= |vs|
    ensures CountTruthy(vs[..i])
            == (if JsonLd.Truthy(vs[0]) then 1 else 0) + CountTruthy(vs[1..][..i - 1])
  {
    assert vs[..i][0] == vs[0];
    assert vs[..i][1..] == vs[1..][..i - 1];
  }

  /** `parts.join(', ')`. */
  function JoinComma(parts: seq<string>): string {
    if parts == [] then "" else parts[0] + CommaTail(parts[1..])
  }

  /** Each part preceded by `", "`. */
  function CommaTail(parts: seq<string>): string {
    if parts == [] then "" else ", " + parts[0] + CommaTail(parts[1..])
  }

  /** `buildAddressString`: the truthy fields among street, city, state, postal code and
      country joined with `", "`; empty exactly when none of them is truthy. */
  function BuildAddressString(f: JsonLd.FormData): (r: string)
    ensures r == "" <==> forall i :: 0 <= i < 5 ==> !JsonLd.Truthy(AddressFields(f)[i])
  {
    var parts := TruthyValues(AddressFields(f));
    assert parts != [] ==> |parts[0]| > 0;
    JoinComma(parts)
  }

  /** Reads an address line back into its parts: split on `,`, then drop the one space
      that follows each comma. */
  function SplitAddressString(s: string): seq<string> {
    if s == "" then []
    else
      var pieces := Validators.Split(s, ',');
      [pieces[0]] + DropSpaces(pieces[1..])
  }

  /** Each piece without the one space that may lead it. */
  function DropSpaces(pieces: seq<string>): (r: seq<string>)
    ensures |r| == |pieces|
    ensures forall i :: 0 <= i < |pieces| ==> r[i] == DropSpace(pieces[i])
  {
    seq(|pieces|, i requires 0 <= i < |pieces| => DropSpace(pieces[i]))
  }

  function DropSpace(p: string): string {
    if p != [] && p[0] == ' ' then p[1..] else p
  }

  /** Each part with a space in front. */
  function Spaced(parts: seq<string>): (r: seq<string>)
    ensures |r| == |parts|
    ensures forall i :: 0 <= i < |parts| ==> r[i] == " " + parts[i]
  {
    seq(|parts|, i requires 0 <= i < |parts| => " " + parts[i])
  }

  lemma {:induction false} CommaTailJoin(head: string, parts: seq<string>)
    ensures head + CommaTail(parts) == Validators.Join([head] + Spaced(parts), ',')
    decreases |parts|
  {
    if parts == [] {
      assert [head] + Spaced(parts) == [head];
    } else {
      CommaTailJoin(" " + parts[0], parts[1..]);
      CommaTailJoinStep(head, parts);
    }
  }

  lemma CommaTailJoinStep(head: string, parts: seq<string>)
    requires parts != []
    requires (" " + parts[0]) + CommaTail(parts[1..])
      == Validators.Join([" " + parts[0]] + Spaced(parts[1..]), ',')
    ensures head + CommaTail(parts) == Validators.Join([head] + Spaced(parts), ',')
  {
    var next := " " + parts[0];
    var all := [head] + Spaced(parts);
    SpacedCons(head, parts);
    JoinCons(all);
    CommaTailCons(parts);
    AppendAssoc(head, [','], next + CommaTail(parts[1..]));
  }

  lemma SpacedCons(head: string, parts: seq<string>)
    requires parts != []
    ensures |[head] + Spaced(parts)| >= 2
    ensures ([head] + Spaced(parts))[0] == head
    ensures ([head] + Spaced(parts))[1..] == [" " + parts[0]] + Spaced(parts[1..])
  {
  }

  lemma JoinCons(all: seq<string>)
    requires |all| >= 2
    ensures Validators.Join(all, ',') == all[0] + [','] + Validators.Join(all[1..], ',')
  {
  }

  lemma CommaTailCons(parts: seq<string>)
    requires parts != []
    ensures CommaTail(parts) == [','] + ((" " + parts[0]) + CommaTail(parts[1..]))
  {
    assert ", " + parts[0] == [','] + (" " + parts[0]);
  }

  lemma AppendAssoc(a: string, b: string, c: string)
    ensures a + (b + c) == (a + b) + c
  {
  }

  /** The position of `c` in `a + [c] + b` is `|a|` when `a` holds no `c`. */
  lemma IndexAfter(a: string, c: char, b: string)
    requires forall k :: 0 <= k < |a| ==> a[k] != c
    ensures Validators.IndexOf(a + [c] + b, c) == |a|
  {
    var s := a + [c] + b;
    assert s[|a|] == c;
    assert forall k :: 0 <= k < |a| ==> s[k] == a[k];
  }

  /** Splitting a join on its separator gives the pieces back when none holds it. */
  lemma {:induction false} JoinSplit(ps: seq<string>, c: char)
    requires |ps| >= 1
    requires NoneHolds(ps, c)
    ensures Validators.Split(Validators.Join(ps, c), c) == ps
    decreases |ps|
  {
    if |ps| == 1 {
      Validators.SplitWithout(ps[0], c);
    } else {
      assert NoneHolds(ps[1..], c) by {
        forall i, k | 0 <= i < |ps| - 1 && 0 <= k < |ps[1..][i]| ensures ps[1..][i][k] != c {
          assert ps[1..][i] == ps[i + 1];
        }
      }
      JoinSplit(ps[1..], c);
      JoinSplitStep(ps, c);
    }
  }

  lemma JoinSplitStep(ps: seq<string>, c: char)
    requires |ps| >= 2
    requires forall k :: 0 <= k < |ps[0]| ==> ps[0][k] != c
    requires Validators.Split(Validators.Join(ps[1..], c), c) == ps[1..]
    ensures Validators.Split(Validators.Join(ps, c), c) == ps
  {
    var rest := Validators.Join(ps[1..], c);
    var s := ps[0] + [c] + rest;
    IndexAfter(ps[0], c, rest);
    assert s[..|ps[0]|] == ps[0];
    assert s[|ps[0]| + 1..] == rest;
    assert ps == [ps[0]] + ps[1..];
  }

  /** No piece holds the character `c`. */
  predicate NoneHolds(parts: seq<string>, c: char) {
    forall i, k :: 0 <= i < |parts| && 0 <= k < |parts[i]| ==> parts[i][k] != c
  }

  /** Putting a space in front of each part brings in no comma. */
  lemma LeadNoComma(parts: seq<string>)
    requires parts != [] && NoneHolds(parts, ',')
    ensures NoneHolds([parts[0]] + Spaced(parts[1..]), ',')
  {
    var ps := [parts[0]] + Spaced(parts[1..]);
    forall i, k | 0 <= i < |ps| && 0 <= k < |ps[i]| ensures ps[i][k] != ',' {
      if i == 0 {
        assert ps[0] == parts[0];
      } else {
        assert ps[i] == " " + parts[i];
        if k > 0 {
          assert ps[i][k] == parts[i][k - 1];
        }
      }
    }
  }

  /** A comma-joined list reads back into its parts when none is empty or holds a comma. */
  lemma {:induction false} JoinCommaRoundTrip(parts: seq<string>)
    requires NoneHolds(parts, ',')
    requires forall i :: 0 <= i < |parts| ==> parts[i] != ""
    ensures SplitAddressString(JoinComma(parts)) == parts
  {
    if parts != [] {
      var ps := [parts[0]] + Spaced(parts[1..]);
      assert JoinComma(parts) == Validators.Join(ps, ',') by {
        CommaTailJoin(parts[0], parts[1..]);
      }
      assert Validators.Split(Validators.Join(ps, ','), ',') == ps by {
        LeadNoComma(parts);
        JoinSplit(ps, ',');
      }
      assert JoinComma(parts) != "" by {
        assert |parts[0]| > 0;
      }
      assert ps[1..] == Spaced(parts[1..]);
      DropSpacesOfSpaced(parts[1..]);
      assert parts == [parts[0]] + parts[1..];
    }
  }

  lemma DropSpacesOfSpaced(parts: seq<string>)
    ensures DropSpaces(Spaced(parts)) == parts
  {
    forall i | 0 <= i < |parts| ensures DropSpaces(Spaced(parts))[i] == parts[i] {
      assert (" " + parts[i])[1..] == parts[i];
    }
  }

  /** The address line reads back into its parts when no part holds a comma. */
  lemma AddressStringRoundTrip(f: JsonLd.FormData)
    requires NoneHolds(TruthyValues(AddressFields(f)), ',')
    ensures SplitAddressString(BuildAddressString(f)) == TruthyValues(AddressFields(f))
  {
    JoinCommaRoundTrip(TruthyValues(AddressFields(f)));
  }

  /** With all five fields filled in, the address line lists them in the source's order,
      separated by `", "`. */
  lemma AddressStringAllFive(f: JsonLd.FormData)
    requires JsonLd.Truthy(f.streetAddress) && JsonLd.Truthy(f.city) && JsonLd.Truthy(f.state)
    requires JsonLd.Truthy(f.postalCode) && JsonLd.Truthy(f.country)
    ensures BuildAddressString(f)
            == f.streetAddress.value + ", " + f.city.value + ", " + f.state.value + ", "
               + f.postalCode.value + ", " + f.country.value
  {
    var vs := AddressFields(f);
    var parts := TruthyValues(vs);
    AllTruthyRanks(vs);
    AllTruthyCount(vs);
    forall i | 0 <= i < 5 ensures parts[i] == vs[i].value {
      assert CountTruthy(vs[..i]) == i;
    }
    assert parts == [vs[0].value, vs[1].value, vs[2].value, vs[3].value, vs[4].value];
    JoinCommaOfFive(parts);
  }

  lemma JoinCommaOfFive(parts: seq<string>)
    requires |parts| == 5
    ensures JoinComma(parts)
            == parts[0] + ", " + parts[1] + ", " + parts[2] + ", " + parts[3] + ", " + parts[4]
  {
    var t := parts[1..];
    assert CommaTail(t[1..][1..][1..][1..]) == "";
    assert CommaTail(t[1..][1..][1..]) == ", " + parts[4];
    assert CommaTail(t[1..][1..]) == ", " + parts[3] + ", " + parts[4];
    assert CommaTail(t[1..]) == ", " + parts[2] + ", " + parts[3] + ", " + parts[4];
    assert CommaTail(t) == ", " + parts[1] + ", " + parts[2] + ", " + parts[3] + ", " + parts[4];
  }

  /** When every entry is truthy, the entry at index `i` has rank `i`. */
  lemma {:induction false} AllTruthyRanks(vs: seq<Option<string>>)
    requires forall i :: 0 <= i < |vs| ==> JsonLd.Truthy(vs[i])
    ensures forall i :: 0 <= i <= |vs| ==> CountTruthy(vs[..i]) == i
  {
    forall i | 0 <= i <= |vs| ensures CountTruthy(vs[..i]) == i {
      AllTruthyCount(vs[..i]);
    }
  }

  lemma {:induction false} AllTruthyCount(vs: seq<Option<string>>)
    requires forall i :: 0 <= i < |vs| ==> JsonLd.Truthy(vs[i])
    ensures CountTruthy(vs) == |vs|
  {
    if vs != [] {
      assert forall i :: 0 <= i < |vs| - 1 ==> vs[1..][i] == vs[i + 1];
      AllTruthyCount(vs[1..]);
    }
  }

  // ------------------------------------------------------------------ cache key

  /** No upper-case ASCII letter. */
  predicate NoUpper(s: string) {
    forall i :: 0 <= i < |s| ==> !IsUpper(s[i])
  }

  /** U+0020 is the only whitespace character. */
  predicate PlainSpaces(s: string) {
    forall i :: 0 <= i < |s| && IsSpace(s[i]) ==> s[i] == ' '
  }

  /** `replace(/[^\w\s]/g, '')`: keeps word characters and whitespace only. */
  function KeepWordAndSpace(s: string): (r: string)
    ensures |r| <= |s|
  {
    if s == [] then []
    else (if IsWordChar(s[0]) || IsSpace(s[0]) then [s[0]] else []) + KeepWordAndSpace(s[1..])
  }

  /** What survives the filter is a word character or whitespace, and the filter brings
      in no upper-case letter and no whitespace other than U+0020. */
  lemma {:induction false} KeepWordAndSpaceShape(s: string)
    ensures var r := KeepWordAndSpace(s);
      && (forall i :: 0 <= i < |r| ==> IsWordChar(r[i]) || IsSpace(r[i]))
      && (NoUpper(s) ==> NoUpper(r))
      && (PlainSpaces(s) ==> PlainSpaces(r))
  {
    if s != [] {
      var rest := s[1..];
      assert NoUpper(s) ==> NoUpper(rest);
      assert PlainSpaces(s) ==> PlainSpaces(rest) by {
        assert forall i :: 0 <= i < |rest| ==> rest[i] == s[i + 1];
      }
      KeepWordAndSpaceShape(rest);
      var h := if IsWordChar(s[0]) || IsSpace(s[0]) then [s[0]] else [];
      assert KeepWordAndSpace(s) == h + KeepWordAndSpace(rest);
    }
  }

  /** `normalizeAddress`: lower-case, trim, collapse whitespace runs to one space, then
      delete everything but word characters and whitespace. The key uses only `a-z`,
      `0-9`, `_` and the space, and is no longer than the address. */
  function NormalizeAddress(address: string): (r: string)
    ensures |r| <= |address|
    ensures forall i :: 0 <= i < |r| ==> IsLower(r[i]) || IsDigit(r[i]) || r[i] == '_' || r[i] == ' '
  {
    NormalizeGivesKeyChars(address);
    KeepWordAndSpace(JsonLd.CollapseSpaces(Trim(ToLower(address))))
  }

  lemma NormalizeGivesKeyChars(address: string)
    ensures var r := KeepWordAndSpace(JsonLd.CollapseSpaces(Trim(ToLower(address))));
      && |r| <= |address|
      && forall i :: 0 <= i < |r| ==> IsLower(r[i]) || IsDigit(r[i]) || r[i] == '_' || r[i] == ' '
  {
    var collapsed := JsonLd.CollapseSpaces(Trim(ToLower(address)));
    assert PlainSpaces(collapsed) by {
      JsonLd.CollapseSpacesShape(Trim(ToLower(address)));
    }
    NormalizeKeepsNoUpper(address);
    KeepWordAndSpaceShape(collapsed);
    var t := Trim(ToLower(address));
    var a :| TrimmedAt(ToLower(address), t, a);
  }

  /** The three stages of `normalizeAddress`, in order. */
  lemma NormalizeStages(address: string)
    ensures NormalizeAddress(address) == KeepWordAndSpace(JsonLd.CollapseSpaces(Trim(ToLower(address))))
  {
  }

  lemma NormalizeKeepsNoUpper(address: string)
    ensures NoUpper(JsonLd.CollapseSpaces(Trim(ToLower(address))))
  {
    LowerHasNoUpper(address);
    TrimKeepsNoUpper(ToLower(address));
    CollapseKeepsNoUpper(Trim(ToLower(address)));
  }

  lemma LowerHasNoUpper(s: string)
    ensures NoUpper(ToLower(s))
  {
  }

  lemma TrimKeepsNoUpper(s: string)
    requires NoUpper(s)
    ensures NoUpper(Trim(s))
  {
    var u := TrimStart(s);
    assert NoUpper(u) by {
      forall k | 0 <= k < |u| ensures !IsUpper(u[k]) {
        assert u[k] == s[|s| - |u| + k];
      }
    }
    var t := TrimEnd(u);
    assert NoUpper(t) by {
      forall k | 0 <= k < |t| ensures !IsUpper(t[k]) {
        assert t[k] == u[k];
      }
    }
    assert Trim(s) == t;
  }

  /** Collapsing whitespace brings in no upper-case letter. */
  lemma {:induction false} CollapseKeepsNoUpper(s: string)
    requires NoUpper(s)
    ensures NoUpper(JsonLd.CollapseSpaces(s))
    decreases |s|
  {
    if s != [] {
      var rest := s[1..];
      if IsSpace(s[0]) {
        var t := TrimStart(rest);
        assert forall k :: 0 <= k < |t| ==> t[k] == s[|s| - |t| + k];
        CollapseKeepsNoUpper(t);
      } else {
        CollapseKeepsNoUpper(rest);
      }
    }
  }

  /** The key ignores the case the address was typed in. */
  lemma NormalizeAddressIgnoresCase(address: string)
    ensures NormalizeAddress(ToUpper(address)) == NormalizeAddress(address)
  {
    LowerOfUpper(address);
  }

  /** A string already in key form: lower-case word characters and single inner spaces. */
  predicate IsKey(s: string) {
    && (forall i :: 0 <= i < |s| ==> IsLower(s[i]) || IsDigit(s[i]) || s[i] == '_' || s[i] == ' ')
    && JsonLd.NoDoubleSpace(s)
    && (s == [] || (s[0] != ' ' && s[|s| - 1] != ' '))
  }

  lemma {:induction false} CollapseFixed(s: string)
    requires PlainSpaces(s) && JsonLd.NoDoubleSpace(s)
    ensures JsonLd.CollapseSpaces(s) == s
    decreases |s|
  {
    if s != [] {
      PlainSpacesTail(s);
      CollapseFixed(s[1..]);
      CollapseFixedStep(s);
    }
  }

  lemma PlainSpacesTail(s: string)
    requires s != [] && PlainSpaces(s)
    ensures PlainSpaces(s[1..])
  {
    var rest := s[1..];
    assert forall i :: 0 <= i < |rest| ==> rest[i] == s[i + 1];
  }

  /** One step of the collapse on a string whose tail is already fixed. */
  lemma CollapseFixedStep(s: string)
    requires s != [] && PlainSpaces(s) && JsonLd.NoDoubleSpace(s)
    requires JsonLd.CollapseSpaces(s[1..]) == s[1..]
    ensures JsonLd.CollapseSpaces(s) == s
  {
    var rest := s[1..];
    assert s == [s[0]] + rest;
    if IsSpace(s[0]) {
      assert TrimStart(rest) == rest by {
        assert rest == [] || !IsSpace(rest[0]);
      }
      assert s[0] == ' ';
    }
  }

  lemma {:induction false} KeepFixed(s: string)
    requires forall i :: 0 <= i < |s| ==> IsWordChar(s[i]) || IsSpace(s[i])
    ensures KeepWordAndSpace(s) == s
  {
    if s != [] {
      KeepFixed(s[1..]);
    }
  }

  lemma LowerFixed(s: string)
    requires NoUpper(s)
    ensures ToLower(s) == s
  {
    assert forall i :: 0 <= i < |s| ==> LowerChar(s[i]) == s[i];
  }

  /** A key normalises to itself. */
  lemma NormalizeAddressFixed(s: string)
    requires IsKey(s)
    ensures NormalizeAddress(s) == s
  {
    PipelineFixed(s);
  }

  lemma PipelineFixed(s: string)
    requires IsKey(s)
    ensures KeepWordAndSpace(JsonLd.CollapseSpaces(Trim(ToLower(s)))) == s
  {
    assert ToLower(s) == s by {
      LowerFixed(s);
    }
    assert Trim(s) == s by {
      TrimOfTrimmed(s);
    }
    assert JsonLd.CollapseSpaces(s) == s by {
      CollapseFixed(s);
    }
    KeepFixed(s);
  }

  /** Normalising twice is not normalising once: symbols are deleted after whitespace
      is collapsed, so the spaces around a deleted `-` end up side by side (`"a - b"`
      gives `"a  b"`, which gives `"a b"`). */
  lemma NormalizeAddressNotIdempotent(a: char, b: char)
    requires IsLower(a) && IsLower(b)
    ensures NormalizeAddress([a, ' ', '-', ' ', b]) == [a, ' ', ' ', b]
    ensures NormalizeAddress([a, ' ', ' ', b]) == [a, ' ', b]
    ensures NormalizeAddress(NormalizeAddress([a, ' ', '-', ' ', b])) != NormalizeAddress([a, ' ', '-', ' ', b])
  {
    assert NormalizeAddress([a, ' ', '-', ' ', b]) == [a, ' ', ' ', b] by {
      NormalizeStages([a, ' ', '-', ' ', b]);
      SymbolPipeline(a, b);
    }
    assert NormalizeAddress([a, ' ', ' ', b]) == [a, ' ', b] by {
      NormalizeStages([a, ' ', ' ', b]);
      DoubleSpacePipeline(a, b);
    }
  }

  lemma SymbolPipeline(a: char, b: char)
    requires IsLower(a) && IsLower(b)
    ensures KeepWordAndSpace(JsonLd.CollapseSpaces(Trim(ToLower([a, ' ', '-', ' ', b])))) == [a, ' ', ' ', b]
  {
    SymbolFront(a, b);
    KeepSymbol(a, b);
  }

  lemma SymbolFront(a: char, b: char)
    requires IsLower(a) && IsLower(b)
    ensures JsonLd.CollapseSpaces(Trim(ToLower([a, ' ', '-', ' ', b]))) == [a, ' ', '-', ' ', b]
  {
    LowerTrimFixed([a, ' ', '-', ' ', b]);
    CollapseAroundSymbol(a, b);
  }

  lemma CollapseAroundSymbol(a: char, b: char)
    requires IsLower(a) && IsLower(b)
    ensures JsonLd.CollapseSpaces([a, ' ', '-', ' ', b]) == [a, ' ', '-', ' ', b]
  {
    var s := [a, ' ', '-', ' ', b];
    assert s[1..] == [' ', '-', ' ', b] && s[2..] == ['-', ' ', b] && s[3..] == [' ', b];
    assert JsonLd.NoDoubleSpace(s[3..]);
    assert JsonLd.NoDoubleSpace(s[2..]);
    assert JsonLd.NoDoubleSpace(s[1..]);
    CollapseFixed(s);
  }

  /** The `-` is deleted and the spaces on either side of it stay. */
  lemma KeepSymbol(a: char, b: char)
    requires IsLower(a) && IsLower(b)
    ensures KeepWordAndSpace([a, ' ', '-', ' ', b]) == [a, ' ', ' ', b]
  {
    var s := [a, ' ', '-', ' ', b];
    assert KeepWordAndSpace(s[3..]) == [' ', b] by {
      KeepFixed(s[3..]);
    }
    assert KeepWordAndSpace(s[2..]) == [' ', b] by {
      assert s[2..][1..] == s[3..];
    }
    assert s[1..][1..] == s[2..];
    assert s[1..] == [' '] + s[2..];
  }

  lemma DoubleSpacePipeline(a: char, b: char)
    requires IsLower(a) && IsLower(b)
    ensures KeepWordAndSpace(JsonLd.CollapseSpaces(Trim(ToLower([a, ' ', ' ', b])))) == [a, ' ', b]
  {
    DoubleSpaceFront(a, b);
    KeepSpacedPair(a, b);
  }

  lemma KeepSpacedPair(a: char, b: char)
    requires IsLower(a) && IsLower(b)
    ensures KeepWordAndSpace([a, ' ', b]) == [a, ' ', b]
  {
    KeepFixed([a, ' ', b]);
  }

  lemma DoubleSpaceFront(a: char, b: char)
    requires IsLower(a) && IsLower(b)
    ensures JsonLd.CollapseSpaces(Trim(ToLower([a, ' ', ' ', b]))) == [a, ' ', b]
  {
    LowerTrimFixed([a, ' ', ' ', b]);
    LowerIsVisible(a);
    LowerIsVisible(b);
    CollapseInnerDoubleSpace(a, b);
  }

  /** Lower-casing and trimming leave alone a string with no upper-case letter and no
      whitespace at either end. */
  lemma LowerTrimFixed(s: string)
    requires NoUpper(s) && (s == [] || (!IsSpace(s[0]) && !IsSpace(s[|s| - 1])))
    ensures Trim(ToLower(s)) == s
  {
    LowerFixed(s);
    TrimOfTrimmed(s);
  }

  lemma LowerIsVisible(c: char)
    requires IsLower(c)
    ensures JsonLd.IsVisible(c)
  {
  }

  /** Two spaces between visible characters collapse to one. */
  lemma CollapseInnerDoubleSpace(a: char, b: char)
    requires JsonLd.IsVisible(a) && JsonLd.IsVisible(b)
    ensures JsonLd.CollapseSpaces([a, ' ', ' ', b]) == [a, ' ', b]
  {
    CollapseLeadingSpaces(b);
    assert [a, ' ', ' ', b][1..] == [' ', ' ', b];
  }

  lemma CollapseLeadingSpaces(b: char)
    requires JsonLd.IsVisible(b)
    ensures JsonLd.CollapseSpaces([' ', ' ', b]) == [' ', b]
  {
    var s := [' ', ' ', b];
    assert s[1..] == [' ', b];
    assert TrimStart([' ', b]) == [b] by {
      assert [' ', b][1..] == [b];
      assert TrimStart([b]) == [b];
    }
    assert JsonLd.CollapseSpaces([b]) == [b] by {
      JsonLd.CollapseSingle(b);
    }
    assert JsonLd.CollapseSpaces(s) == [' '] + [b];
  }

  // ----------------------------------------------------------- Nominatim reply

  /** A Nominatim `address` object: its keys and their string values. */
  type NominatimAddress = map<string, string>

  function Lookup(m: NominatimAddress, k: string): Option<string> {
    if k in m then Some(m[k]) else None
  }

  /** `v` is what `m[keys[0]] || m[keys[1]] || ... || ''` evaluates to: the first truthy
      value along the chain, or `''` when there is none. */
  predicate FirstTruthyIs(m: NominatimAddress, keys: seq<string>, v: string) {
    || (v == "" && forall i :: 0 <= i < |keys| ==> !JsonLd.Truthy(Lookup(m, keys[i])))
    || (exists i :: 0 <= i < |keys| && Lookup(m, keys[i]) == Some(v) && v != ""
          && forall j :: 0 <= j < i ==> !JsonLd.Truthy(Lookup(m, keys[j])))
  }

  function FirstTruthy(m: NominatimAddress, keys: seq<string>): (v: string)
    ensures FirstTruthyIs(m, keys, v)
  {
    if keys == [] then ""
    else if JsonLd.Truthy(Lookup(m, keys[0])) then
      assert Lookup(m, keys[0]) == Some(m[keys[0]]);
      m[keys[0]]
    else
      var v := FirstTruthy(m, keys[1..]);
      if v == "" then
        v
      else
        var i :| 0 <= i < |keys| - 1 && Lookup(m, keys[1..][i]) == Some(v) && v != ""
          && forall j :: 0 <= j < i ==> !JsonLd.Truthy(Lookup(m, keys[1..][j]));
        assert forall j :: 0 <= j < i + 1 ==> !JsonLd.Truthy(Lookup(m, keys[j])) by {
          forall j | 0 <= j < i + 1 ensures !JsonLd.Truthy(Lookup(m, keys[j])) {
            if j > 0 {
              assert keys[j] == keys[1..][j - 1];
            }
          }
        }
        v
  }

  /** A fallback chain has one value: `FirstTruthyIs` pins it down. */
  lemma FirstTruthyUnique(m: NominatimAddress, keys: seq<string>, v: string, w: string)
    requires FirstTruthyIs(m, keys, v) && FirstTruthyIs(m, keys, w)
    ensures v == w
  {
    if v != "" && w != "" {
      var i :| 0 <= i < |keys| && Lookup(m, keys[i]) == Some(v) && v != ""
        && forall j :: 0 <= j < i ==> !JsonLd.Truthy(Lookup(m, keys[j]));
      var k :| 0 <= k < |keys| && Lookup(m, keys[k]) == Some(w) && w != ""
        && forall j :: 0 <= j < k ==> !JsonLd.Truthy(Lookup(m, keys[j]));
      assert !(i < k) && !(k < i);
    }
  }

  /** The parsed components, or `{}` when the reply carries no address. */
  datatype Components =
    | NoComponents
    | Components(streetNumber: string, streetName: string, city: string, state: string,
                 postalCode: string, country: string, countryCode: string)

  const StreetNameKeys: seq<string> := ["road", "pedestrian"]
  const CityKeys: seq<string> := ["city", "town", "village", "hamlet"]
  const StateKeys: seq<string> := ["state", "region"]

  /** `parseNominatimComponents`: no address gives `{}`; otherwise each component is the
      first truthy value of its fallback chain or `''`, and the country code is
      upper-cased. */
  function ParseComponents(address: Option<NominatimAddress>): (r: Components)
    ensures address.None? <==> r.NoComponents?
    ensures address.Some? ==>
      var m := address.value;
      && FirstTruthyIs(m, ["house_number"], r.streetNumber)
      && FirstTruthyIs(m, StreetNameKeys, r.streetName)
      && FirstTruthyIs(m, CityKeys, r.city)
      && FirstTruthyIs(m, StateKeys, r.state)
      && FirstTruthyIs(m, ["postcode"], r.postalCode)
      && FirstTruthyIs(m, ["country"], r.country)
    ensures address.Some? ==>
      var code := Lookup(address.value, "country_code");
      && (JsonLd.Truthy(code) ==> r.countryCode == ToUpper(code.value))
      && (!JsonLd.Truthy(code) ==> r.countryCode == "")
    ensures r.Components? ==> forall i :: 0 <= i < |r.countryCode| ==> !IsLower(r.countryCode[i])
  {
    if address.None? then NoComponents
    else
      var m := address.value;
      var code := Lookup(m, "country_code");
      Components(
        FirstTruthy(m, ["house_number"]),
        FirstTruthy(m, StreetNameKeys),
        FirstTruthy(m, CityKeys),
        FirstTruthy(m, StateKeys),
        FirstTruthy(m, ["postcode"]),
        FirstTruthy(m, ["country"]),
        if JsonLd.Truthy(code) then ToUpper(code.value) else "")
  }

  // ------------------------------------------------------------------ accuracy

  datatype Accuracy = High | Medium | Low

  /** The two fields of a Nominatim result the estimate reads; `None` is an absent key. */
  datatype NominatimResult = NominatimResult(typ: Option<string>, osmType: Option<string>)

  /** `estimateAccuracy`: building level when the type mentions `house` or the result is
      an OSM node, street level when the type mentions `street` or `road`, area level
      otherwise. */
  function EstimateAccuracy(result: NominatimResult): (a: Accuracy)
    ensures var t := result.typ.GetOr("");
      && (a == High <==> (exists i :: OccursAt(t, "house", i)) || result.osmType == Some("node"))
      && (a == Medium <==> !(exists i :: OccursAt(t, "house", i)) && result.osmType != Some("node")
                           && ((exists i :: OccursAt(t, "street", i)) || (exists i :: OccursAt(t, "road", i))))
      && (a == Low <==> !(exists i :: OccursAt(t, "house", i)) && result.osmType != Some("node")
                        && !(exists i :: OccursAt(t, "street", i)) && !(exists i :: OccursAt(t, "road", i)))
  {
    var t := result.typ.GetOr("");
    var osm := result.osmType.GetOr("");
    if Contains(t, "house") || osm == "node" then High
    else if Contains(t, "street") || Contains(t, "road") then Medium
    else Low
  }

  // ---------------------------------------------------------------- rate limit

  /** One provider's fixed window: calls admitted so far, the clock reading (ms) at which
      the window ends, and the calls admitted per window. */
  datatype Window = Window(requests: int, resetTime: int, limit: int)

  /** The outcome of one check: whether the call may go ahead, and the window after it. */
  datatype Admission = Admission(allowed: bool, window: Window)

  /** The window length, one second. */
  const WindowMs: int := 1000

  /** One check against a window at clock reading `now`: a window that has run out is
      restarted empty for another second, then the call is admitted while the count is
      below the limit. A refused call leaves the count as it is. */
  function Admit(w: Window, now: int): (r: Admission)
    ensures r.window.limit == w.limit
    ensures now >= w.resetTime ==> r.window.resetTime == now + WindowMs
    ensures now < w.resetTime ==> r.window.resetTime == w.resetTime
    ensures var before := if now >= w.resetTime then 0 else w.requests;
      && (r.allowed <==> before < w.limit)
      && r.window.requests == (if r.allowed then before + 1 else before)
  {
    var w' := if now >= w.resetTime then Window(0, now + WindowMs, w.limit) else w;
    if w'.requests >= w'.limit then Admission(false, w')
    else Admission(true, w'.(requests := w'.requests + 1))
  }

  /** The windows of all rate-limited providers, by provider name. */
  type RateLimits = map<string, Window>

  datatype Decision = Decision(allowed: bool, limits: RateLimits)

  /** `checkRateLimit`: a provider without a window is always admitted and nothing
      changes; otherwise its window takes one `Admit` step and no other window changes. */
  function CheckRateLimit(limits: RateLimits, provider: string, now: int): (r: Decision)
    ensures provider !in limits ==> r.allowed && r.limits == limits
    ensures provider in limits ==>
      var a := Admit(limits[provider], now);
      r.allowed == a.allowed && r.limits == limits[provider := a.window]
    ensures r.limits.Keys == limits.Keys
    ensures forall k :: k in limits && k != provider ==> r.limits[k] == limits[k]
  {
    if provider !in limits then Decision(true, limits)
    else
      var a := Admit(limits[provider], now);
      Decision(a.allowed, limits[provider := a.window])
  }

  /** The configured limits: Nominatim, one call per second, window not yet started. */
  const InitialLimits: RateLimits := map["nominatim" := Window(0, 0, 1)]

  /** The number of calls admitted when the checks happen at the given clock readings. */
  function AdmittedCount(w: Window, times: seq<int>): nat
    decreases |times|
  {
    if times == [] then 0
    else
      var a := Admit(w, times[0]);
      (if a.allowed then 1 else 0) + AdmittedCount(a.window, times[1..])
  }

  /** While a window lasts it admits at most `limit` calls in all, counting the ones it
      admitted already. */
  lemma {:induction false} WindowAdmitsAtMostLimit(w: Window, times: seq<int>)
    requires 0 <= w.requests
    requires forall i :: 0 <= i < |times| ==> times[i] < w.resetTime
    ensures w.requests <= w.limit ==> AdmittedCount(w, times) <= w.limit - w.requests
    ensures w.requests > w.limit ==> AdmittedCount(w, times) == 0
    decreases |times|
  {
    if times != [] {
      var a := Admit(w, times[0]);
      assert a.window.resetTime == w.resetTime;
      assert forall i :: 0 <= i < |times[1..]| ==> times[1..][i] < a.window.resetTime;
      WindowAdmitsAtMostLimit(a.window, times[1..]);
    }
  }

  /** A call that opens a new window and the calls within the following second are
      admitted at most `limit` times together. */
  lemma AtMostLimitPerWindow(w: Window, start: int, times: seq<int>)
    requires start >= w.resetTime && 0 <= w.limit
    requires forall i :: 0 <= i < |times| ==> times[i] < start + WindowMs
    ensures AdmittedCount(w, [start] + times) <= w.limit
  {
    var a := Admit(w, start);
    assert ([start] + times)[1..] == times;
    WindowAdmitsAtMostLimit(a.window, times);
  }

  /** With the configured limits, a first Nominatim call is admitted, a second one within
      the same second is refused, and one a second or more later is admitted again. */
  lemma NominatimOnePerSecond(first: int, second: int, later: int)
    requires 0 <= first <= second < first + WindowMs <= later
    ensures var r1 := CheckRateLimit(InitialLimits, "nominatim", first);
      var r2 := CheckRateLimit(r1.limits, "nominatim", second);
      var r3 := CheckRateLimit(r2.limits, "nominatim", later);
      r1.allowed && !r2.allowed && r3.allowed
  {
  }

  // --------------------------------------------------------------- coordinates

  const LatitudeNaN: string := "Latitude must be a valid number"
  const LatitudeRange: string := "Latitude must be between -90 and 90"
  const LongitudeNaN: string := "Longitude must be a valid number"
  const LongitudeRange: string := "Longitude must be between -180 and 180"

  /** `{ isValid, errors, coordinates }`; `coordinates` is `null` unless valid. */
  datatype CoordinateCheck = CoordinateCheck(isValid: bool, errors: seq<string>, coordinates: Option<(real, real)>)

  /** The one error an axis can produce: not a number, or outside `[-bound, bound]`. */
  function AxisErrors(v: Option<real>, bound: real, nan: string, range: string): (es: seq<string>)
    ensures |es| <= 1
    ensures es == [] <==> v.Some? && -bound <= v.value <= bound
    ensures v.None? ==> es == [nan]
    ensures v.Some? && !(-bound <= v.value <= bound) ==> es == [range]
  {
    if v.None? then [nan]
    else if v.value < -bound || v.value > bound then [range]
    else []
  }

  /** `validateCoordinates`: each axis adds at most one error, latitude first; the bounds
      are inclusive; the result is valid exactly when there is no error, and then, and
      only then, carries both parsed values. `parseFloat` is a parameter (`None` = NaN). */
  function ValidateCoordinates(latitude: string, longitude: string, parseFloat: string -> Option<real>): (r: CoordinateCheck)
    ensures var lat, lng := parseFloat(latitude), parseFloat(longitude);
      && (r.isValid <==> r.errors == [])
      && (r.isValid <==> r.coordinates.Some?)
      && (r.isValid <==> lat.Some? && -90.0 <= lat.value <= 90.0 && lng.Some? && -180.0 <= lng.value <= 180.0)
      && (r.coordinates.Some? ==> r.coordinates.value == (lat.value, lng.value))
    ensures var lat, lng := parseFloat(latitude), parseFloat(longitude);
      && 0 <= |r.errors| <= 2
      && (LatitudeNaN in r.errors <==> lat.None?)
      && (LatitudeRange in r.errors <==> lat.Some? && !(-90.0 <= lat.value <= 90.0))
      && (LongitudeNaN in r.errors <==> lng.None?)
      && (LongitudeRange in r.errors <==> lng.Some? && !(-180.0 <= lng.value <= 180.0))
      && forall e :: e in r.errors ==> e in [LatitudeNaN, LatitudeRange, LongitudeNaN, LongitudeRange]
    ensures r.errors != [] && r.errors[0] in [LongitudeNaN, LongitudeRange] ==> |r.errors| == 1
  {
    var lat, lng := parseFloat(latitude), parseFloat(longitude);
    var latErrors := AxisErrors(lat, 90.0, LatitudeNaN, LatitudeRange);
    var lngErrors := AxisErrors(lng, 180.0, LongitudeNaN, LongitudeRange);
    var errors := latErrors + lngErrors;
    if errors == [] then CoordinateCheck(true, errors, Some((lat.value, lng.value)))
    else CoordinateCheck(false, errors, None)
  }
}
