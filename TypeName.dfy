/** The rule that derives the WFS `typeName` parameter from a request URL
    (main.py:31): split the URL at `typeName=`, keep the last piece, split
    that at `&` and keep the first piece.

    Python's `str.split(sep)` is modelled as it behaves: it scans left to
    right for the first occurrence of `sep`, cuts there, and continues after
    the separator; the pieces joined with `sep` give back the string. */
module TypeName {
  import opened Wrappers

  /** `sep` occurs in `s` starting at index `i`. */
  predicate OccursAt(s: string, sep: string, i: nat) {
    i + |sep| <= |s| && s[i..i + |sep|] == sep
  }

  /** Occurrences in a suffix are occurrences in the whole string, shifted. */
  lemma OccursInSuffix(s: string, sep: string, lo: nat, j: nat)
    requires lo <= |s|
    ensures OccursAt(s[lo..], sep, j) <==> OccursAt(s, sep, lo + j)
  {
    if lo + j + |sep| <= |s| {
      assert s[lo..][j..j + |sep|] == s[lo + j..lo + j + |sep|];
    }
  }

  /** Occurrences that fit in a prefix are the same in the prefix and the whole string. */
  lemma OccursInPrefix(s: string, sep: string, hi: nat, j: nat)
    requires j + |sep| <= hi <= |s|
    ensures OccursAt(s[..hi], sep, j) <==> OccursAt(s, sep, j)
  {
    assert s[..hi][j..j + |sep|] == s[j..j + |sep|];
  }

  /** The smallest index from `k` on where `sep` occurs in `s`. */
  function FindFirstFrom(s: string, sep: string, k: nat): (r: Option<nat>)
    ensures r.Some? ==> k <= r.value && OccursAt(s, sep, r.value)
    ensures r.Some? ==> forall j: nat :: k <= j < r.value ==> !OccursAt(s, sep, j)
    ensures r.None? ==> forall j: nat :: k <= j ==> !OccursAt(s, sep, j)
    decreases |s| + 1 - k
  {
    if |s| < k + |sep| then None
    else if OccursAt(s, sep, k) then Some(k)
    else FindFirstFrom(s, sep, k + 1)
  }

  /** Index of the leftmost occurrence of `sep` in `s` (Python's `str.find`). */
  function FindFirst(s: string, sep: string): (r: Option<nat>)
    ensures r.Some? ==> OccursAt(s, sep, r.value)
    ensures r.Some? ==> forall j: nat :: j < r.value ==> !OccursAt(s, sep, j)
    ensures r.None? ==> forall j: nat :: !OccursAt(s, sep, j)
  {
    FindFirstFrom(s, sep, 0)
  }

  predicate Contains(s: string, sep: string) {
    FindFirst(s, sep).Some?
  }

  /** The largest index below `k` where `sep` occurs in `s`. */
  function FindLastBelow(s: string, sep: string, k: nat): (r: Option<nat>)
    ensures r.Some? ==> r.value < k && OccursAt(s, sep, r.value)
    ensures r.Some? ==> forall j: nat :: r.value < j < k ==> !OccursAt(s, sep, j)
    ensures r.None? ==> forall j: nat :: j < k ==> !OccursAt(s, sep, j)
  {
    if k == 0 then None
    else if OccursAt(s, sep, k - 1) then Some(k - 1)
    else FindLastBelow(s, sep, k - 1)
  }

  /** Index of the rightmost occurrence of `sep` in `s` (Python's `str.rfind`):
      an independent reference for "the text after the last marker". */
  function FindLast(s: string, sep: string): (r: Option<nat>)
    ensures r.Some? ==> OccursAt(s, sep, r.value)
    ensures r.Some? ==> forall j: nat :: j > r.value ==> !OccursAt(s, sep, j)
    ensures r.None? ==> forall j: nat :: !OccursAt(s, sep, j)
  {
    FindLastBelow(s, sep, |s| + 1)
  }

  /** The text before the first occurrence of `sep` does not contain `sep`. */
  lemma BeforeFirstHasNoSeparator(s: string, sep: string, i: nat)
    requires |sep| > 0 && FindFirst(s, sep) == Some(i)
    ensures !Contains(s[..i], sep)
  {
    forall j: nat | j + |sep| <= i ensures !OccursAt(s[..i], sep, j) {
      OccursInPrefix(s, sep, i, j);
    }
  }

  /** Python's `s.split(sep)` for a non-empty separator (an empty one raises). */
  function Split(s: string, sep: string): (pieces: seq<string>)
    requires |sep| > 0
    ensures |pieces| > 0
    ensures forall k :: 0 <= k < |pieces| ==> !Contains(pieces[k], sep)
    decreases |s|
  {
    match FindFirst(s, sep)
    case None => [s]
    case Some(i) =>
      BeforeFirstHasNoSeparator(s, sep, i);
      [s[..i]] + Split(s[i + |sep|..], sep)
  }

  /** Python's `sep.join(pieces)`. */
  function Join(pieces: seq<string>, sep: string): string
    requires |pieces| > 0
  {
    if |pieces| == 1 then pieces[0] else pieces[0] + sep + Join(pieces[1..], sep)
  }

  /** Splitting loses nothing: joining the pieces gives the string back. */
  lemma {:induction false} JoinSplit(s: string, sep: string)
    requires |sep| > 0
    ensures Join(Split(s, sep), sep) == s
    decreases |s|
  {
    match FindFirst(s, sep)
    case None =>
    case Some(i) =>
      var rest := s[i + |sep|..];
      JoinSplit(rest, sep);
      assert Split(s, sep) == [s[..i]] + Split(rest, sep);
      assert s == s[..i] + s[i..i + |sep|] + rest;
  }

  function Last<T>(xs: seq<T>): T
    requires |xs| > 0
  {
    xs[|xs| - 1]
  }

  /** `sep` cannot overlap itself: no proper suffix of it is also a prefix. */
  ghost predicate NoBorder(sep: string) {
    forall d :: 0 < d < |sep| ==> sep[d..] != sep[..|sep| - d]
  }

  /** A separator whose last character occurs nowhere else in it cannot overlap itself. */
  lemma UniqueLastCharNoBorder(sep: string)
    requires |sep| > 0
    requires forall k :: 0 <= k < |sep| - 1 ==> sep[k] != sep[|sep| - 1]
    ensures NoBorder(sep)
  {
    forall d | 0 < d < |sep| ensures sep[d..] != sep[..|sep| - d] {
      assert sep[d..][|sep| - d - 1] == sep[|sep| - 1];
      assert sep[..|sep| - d][|sep| - d - 1] == sep[|sep| - d - 1];
    }
  }

  /** Occurrences of a border-free separator never overlap: none starts
      inside another. */
  lemma NoOverlap(s: string, sep: string, i: nat, j: nat)
    requires NoBorder(sep)
    requires OccursAt(s, sep, i) && i < j < i + |sep|
    ensures !OccursAt(s, sep, j)
  {
    if j + |sep| <= |s| {
      var d := j - i;
      assert sep[d..] == s[j..i + |sep|];
      assert s[j..i + |sep|] == s[j..j + |sep|][..|sep| - d];
    }
  }

  /** An occurrence with none after it is the one `FindLast` reports. */
  lemma FindLastIsRightmost(s: string, sep: string, c: nat)
    requires OccursAt(s, sep, c)
    requires forall j: nat :: j > c ==> !OccursAt(s, sep, j)
    ensures FindLast(s, sep) == Some(c)
  {
  }

  /** After cutting a border-free separator out at `i`, with nothing after
      the cut, that occurrence is the rightmost one. */
  lemma RightmostAtCut(s: string, sep: string, i: nat)
    requires NoBorder(sep) && OccursAt(s, sep, i)
    requires FindLast(s[i + |sep|..], sep).None?
    ensures FindLast(s, sep) == Some(i)
  {
    var n := i + |sep|;
    forall j: nat | j > i ensures !OccursAt(s, sep, j) {
      if j < n {
        NoOverlap(s, sep, i, j);
      } else {
        OccursInSuffix(s, sep, n, j - n);
      }
    }
    FindLastIsRightmost(s, sep, i);
  }

  /** A rightmost occurrence in a suffix is, shifted, a rightmost occurrence
      in the whole string. */
  lemma ShiftedRightmost(s: string, sep: string, n: nat, k: nat)
    requires n <= |s|
    requires OccursAt(s[n..], sep, k)
    requires forall j: nat :: j > k ==> !OccursAt(s[n..], sep, j)
    ensures OccursAt(s, sep, n + k)
    ensures forall j: nat :: j > n + k ==> !OccursAt(s, sep, j)
  {
    OccursInSuffix(s, sep, n, k);
    forall j: nat | j > n + k ensures !OccursAt(s, sep, j) {
      OccursInSuffix(s, sep, n, j - n);
    }
  }

  /** The rightmost occurrence after a cut at `i` is, shifted, the rightmost one. */
  lemma RightmostAfterCut(s: string, sep: string, i: nat, k: nat)
    requires OccursAt(s, sep, i)
    requires FindLast(s[i + |sep|..], sep) == Some(k)
    ensures FindLast(s, sep) == Some(i + |sep| + k)
  {
    ShiftedRightmost(s, sep, i + |sep|, k);
    FindLastIsRightmost(s, sep, i + |sep| + k);
  }

  /** The text after the rightmost occurrence of `sep`, or all of `s`. */
  function AfterLast(s: string, sep: string): string {
    match FindLast(s, sep)
    case None => s
    case Some(i) => s[i + |sep|..]
  }

  /** One step of `split`: the piece before the first occurrence, then the rest split. */
  lemma SplitAtFirst(s: string, sep: string, i: nat)
    requires |sep| > 0 && FindFirst(s, sep) == Some(i)
    ensures Split(s, sep) == [s[..i]] + Split(s[i + |sep|..], sep)
  {
  }

  /** Cutting a border-free separator out at `i` leaves the text after the
      last occurrence unchanged. */
  lemma AfterLastAfterCut(s: string, sep: string, i: nat)
    requires NoBorder(sep) && OccursAt(s, sep, i)
    ensures AfterLast(s, sep) == AfterLast(s[i + |sep|..], sep)
  {
    var rest := s[i + |sep|..];
    match FindLast(rest, sep)
    case None =>
      RightmostAtCut(s, sep, i);
    case Some(k) =>
      RightmostAfterCut(s, sep, i, k);
      assert rest[k + |sep|..] == s[i + |sep| + k + |sep|..];
  }

  /** For a separator that cannot overlap itself, the last piece of `split` is
      exactly the text after the rightmost occurrence (the whole string when
      there is none). */
  lemma {:induction false} LastPieceAfterLastOccurrence(s: string, sep: string)
    requires |sep| > 0 && NoBorder(sep)
    ensures Last(Split(s, sep)) == AfterLast(s, sep)
    decreases |s|
  {
    match FindFirst(s, sep)
    case None =>
    case Some(i) =>
      var rest := s[i + |sep|..];
      LastPieceAfterLastOccurrence(rest, sep);
      SplitAtFirst(s, sep, i);
      AfterLastAfterCut(s, sep, i);
  }

  const TypeNameKey: string := "typeName="
  const ParamSeparator: string := "&"

  lemma TypeNameKeyNoBorder()
    ensures NoBorder(TypeNameKey)
  {
    UniqueLastCharNoBorder(TypeNameKey);
  }

  /** The `typeName` query parameter sent with every page request
      (main.py:31). It never contains `&`, and is the text after the last
      `typeName=` of the URL (or the whole URL when it has none), cut before
      the first `&` that follows. */
  function TypeNameOf(url: string): (name: string)
    ensures var after := AfterLast(url, TypeNameKey);
            && '&' !in name
            && name <= after
            && (|name| < |after| ==> after[|name|] == '&')
  {
    TypeNameKeyNoBorder();
    LastPieceAfterLastOccurrence(url, TypeNameKey);
    FirstPieceBeforeAmpersand(Last(Split(url, TypeNameKey)));
    Split(Last(Split(url, TypeNameKey)), ParamSeparator)[0]
  }

  /** The longest prefix of `s` holding no `&`. */
  lemma {:induction false} FirstPieceBeforeAmpersand(s: string)
    ensures var r := Split(s, ParamSeparator)[0];
            r <= s && '&' !in r && (|r| < |s| ==> s[|r|] == '&')
  {
    var r := Split(s, ParamSeparator)[0];
    forall j | 0 <= j < |r| ensures r[j] != '&' {
      if r[j] == '&' {
        assert r[j..j + 1] == ParamSeparator;
        assert OccursAt(r, ParamSeparator, j);
      }
    }
    match FindFirst(s, ParamSeparator)
    case None =>
    case Some(i) =>
      assert s[i..i + 1] == ParamSeparator;
  }

  /** Without a `typeName=` marker the name is the URL's prefix before its first `&`. */
  lemma TypeNameWithoutKey(url: string)
    requires !Contains(url, TypeNameKey)
    ensures var name := TypeNameOf(url);
            name <= url && '&' !in name && (|name| < |url| ==> url[|name|] == '&')
  {
    FirstPieceBeforeAmpersand(url);
  }

  /** A string without a given character holds no one-character separator made of it. */
  lemma NoCharNoOccurrence(s: string, c: char)
    requires c !in s
    ensures FindFirst(s, [c]).None?
  {
    forall j: nat | j < |s| ensures !OccursAt(s, [c], j) {
      assert s[j..j + 1][0] == s[j];
    }
  }

  /** The rightmost occurrence of `sep` in `a + sep + b`, when `b` lacks the
      separator's last character, is the one right after `a`. */
  lemma LastOccurrenceBeforeTail(a: string, sep: string, b: string)
    requires |sep| > 0 && sep[|sep| - 1] !in b
    ensures FindLast(a + sep + b, sep) == Some(|a|)
  {
    var s := a + sep + b;
    assert s[|a|..|a| + |sep|] == sep;
    forall j: nat | j > |a| ensures !OccursAt(s, sep, j) {
      if j + |sep| <= |s| {
        var p := j + |sep| - 1;
        assert s[j..j + |sep|][|sep| - 1] == b[p - |a| - |sep|];
      }
    }
    FindLastIsRightmost(s, sep, |a|);
  }

  /** A URL ending in `typeName=<name>`, with no `=` or `&` in the name,
      yields that name whatever precedes the marker. */
  lemma TypeNameOfTrailingKey(base: string, name: string)
    requires '=' !in name && '&' !in name
    ensures TypeNameOf(base + TypeNameKey + name) == name
  {
    var url := base + TypeNameKey + name;
    LastOccurrenceBeforeTail(base, TypeNameKey, name);
    TypeNameKeyNoBorder();
    LastPieceAfterLastOccurrence(url, TypeNameKey);
    assert url[|base| + |TypeNameKey|..] == name;
    NoCharNoOccurrence(name, '&');
    assert ParamSeparator == ['&'];
  }

  /** The municipal-boundaries URL the program fetches (main.py:48), in three
      parts: the endpoint with its fixed query, the marker, and the layer name. */
  const GemeenteEndpoint: string :=
    "https://service.pdok.nl/cbs/gebiedsindelingen/2023/wfs/v1_0?request=GetFeature&"
  const GemeenteLayer: string := "gemeente_gegeneraliseerd"
  const GemeenteUrl: string := GemeenteEndpoint + TypeNameKey + GemeenteLayer

  /** For that URL the request names the layer `gemeente_gegeneraliseerd`. */
  lemma GemeenteTypeName()
    ensures TypeNameOf(GemeenteUrl) == "gemeente_gegeneraliseerd"
  {
    TypeNameOfTrailingKey(GemeenteEndpoint, GemeenteLayer);
  }
}
