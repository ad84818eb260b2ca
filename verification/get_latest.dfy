/**
 * Picking the release asset to download (`Download` in get_latest.py): the
 * first asset, in the order the release lists them, whose lower-cased name
 * contains every filter, lower-cased and stripped of surrounding whitespace.
 * Fetching the release document and downloading the file are left abstract.
 */
module GetLatest {
  import opened Wrappers

  /** One entry of the release's `assets` list. */
  datatype Asset = Asset(name: string, downloadUrl: string)

  /** `str.lower` on one character; only the ASCII letters are mapped. */
  function LowerChar(c: char): char {
    if 'A' <= c <= 'Z' then (c as int + 32) as char else c
  }

  function Lower(s: string): string {
    seq(|s|, i requires 0 <= i < |s| => LowerChar(s[i]))
  }

  /** The characters `str.isspace` accepts, which `str.strip()` removes. */
  predicate IsSpace(c: char) {
    || c == ' '
    || '\t' <= c <= '\r'
    || '\U{1C}' <= c <= '\U{1F}'
    || c == '\U{85}' || c == '\U{A0}' || c == '\U{1680}'
    || '\U{2000}' <= c <= '\U{200A}'
    || c == '\U{2028}' || c == '\U{2029}' || c == '\U{202F}' || c == '\U{205F}' || c == '\U{3000}'
  }

  function StripLeft(s: string): string {
    if |s| > 0 && IsSpace(s[0]) then StripLeft(s[1..]) else s
  }

  function StripRight(s: string): string {
    if |s| > 0 && IsSpace(s[|s| - 1]) then StripRight(s[..|s| - 1]) else s
  }

  /** `str.strip()`. */
  function Strip(s: string): string {
    StripRight(StripLeft(s))
  }

  /** Python's `needle in haystack` on strings; the empty string is in every string. */
  predicate Contains(haystack: string, needle: string) {
    needle <= haystack || (|haystack| > 0 && Contains(haystack[1..], needle))
  }

  /** The test `_search` applies to one asset. */
  predicate Matches(asset: Asset, charact: seq<string>) {
    forall ch :: ch in charact ==> Contains(Lower(asset.name), Strip(Lower(ch)))
  }

  /** `Download._search`: the first asset satisfying every characteristic, or None. */
  function Search(assets: seq<Asset>, charact: seq<string>): (r: Option<Asset>)
    ensures r.Some? ==> exists i :: 0 <= i < |assets| && assets[i] == r.value && Matches(assets[i], charact) &&
                                    forall j :: 0 <= j < i ==> !Matches(assets[j], charact)
    ensures r.None? <==> forall i :: 0 <= i < |assets| ==> !Matches(assets[i], charact)
  {
    if |assets| == 0 then None
    else if Matches(assets[0], charact) then Some(assets[0])
    else
      var rest := Search(assets[1..], charact);
      assert forall j :: 1 <= j < |assets| ==> assets[j] == assets[1..][j - 1];
      if rest.Some? then
        var i :| 0 <= i < |assets[1..]| && assets[1..][i] == rest.value && Matches(assets[1..][i], charact) &&
                 forall j :: 0 <= j < i ==> !Matches(assets[1..][j], charact);
        assert assets[i + 1] == rest.value;
        rest
      else rest
  }

  /** With no characteristics every asset matches, so the first asset (if any) is chosen. */
  lemma SearchWithoutCharacteristics(assets: seq<Asset>)
    ensures Search(assets, []) == if |assets| == 0 then None else Some(assets[0])
  {
  }

  /** The filter normalisation in `get`: strip, then lower. */
  function Normalise(f: string): string {
    Lower(Strip(f))
  }

  /** What `get` returns: the error value it returns instead of raising, or the downloaded asset's url and name. */
  datatype GetResult = NotFoundError(message: string) | Downloaded(url: string, name: string)

  function JoinWith(sep: string, parts: seq<string>): string {
    if |parts| == 0 then ""
    else if |parts| == 1 then parts[0]
    else parts[0] + sep + JoinWith(sep, parts[1..])
  }

  /**
   * `Download.get` once the release document has been fetched: `release` is
   * None when the document is empty. The filters are normalised, the first
   * matching asset is downloaded, and a missing match is returned as an error.
   */
  function Get(release: Option<seq<Asset>>, charact: seq<string>): (r: GetResult)
    ensures release.None? ==> r == NotFoundError("Could'nt find resources.")
    ensures release.Some? && Search(release.value, charact).None? ==>
              r == NotFoundError("Couldn't find download with characteristics" + JoinWith("; ", charact))
    ensures release.Some? && Search(release.value, charact).Some? ==>
              r == Downloaded(Search(release.value, charact).value.downloadUrl, Search(release.value, charact).value.name)
  {
    if release.None? then NotFoundError("Could'nt find resources.")
    else
      var filtre := seq(|charact|, i requires 0 <= i < |charact| => Normalise(charact[i]));
      SearchNormalisedFilters(release.value, charact);
      match Search(release.value, filtre)
      case None => NotFoundError("Couldn't find download with characteristics" + JoinWith("; ", charact))
      case Some(asset) => Downloaded(asset.downloadUrl, asset.name)
  }

  /** Normalising the filters before searching changes nothing: `_search` normalises them again. */
  lemma SearchNormalisedFilters(assets: seq<Asset>, charact: seq<string>)
    ensures Search(assets, seq(|charact|, i requires 0 <= i < |charact| => Normalise(charact[i]))) == Search(assets, charact)
  {
    var filtre := seq(|charact|, i requires 0 <= i < |charact| => Normalise(charact[i]));
    forall a: Asset
      ensures Matches(a, filtre) == Matches(a, charact)
    {
      forall ch | ch in charact
        ensures Strip(Lower(Normalise(ch))) == Strip(Lower(ch))
      {
        NormaliseAbsorbed(ch);
      }
      forall ch | ch in filtre
        ensures exists c :: c in charact && ch == Normalise(c)
      {
        var i :| 0 <= i < |filtre| && filtre[i] == ch;
        assert charact[i] in charact;
      }
      forall c | c in charact
        ensures Normalise(c) in filtre
      {
        var i :| 0 <= i < |charact| && charact[i] == c;
        assert filtre[i] == Normalise(c);
      }
    }
    SearchAgrees(assets, filtre, charact);
  }

  /** Searches with filters every asset judges alike give the same answer. */
  lemma SearchAgrees(assets: seq<Asset>, c1: seq<string>, c2: seq<string>)
    requires forall a: Asset :: Matches(a, c1) == Matches(a, c2)
    ensures Search(assets, c1) == Search(assets, c2)
    decreases |assets|
  {
  }

  /** Lower-casing then stripping a normalised filter gives what it gives on the raw filter. */
  lemma NormaliseAbsorbed(ch: string)
    ensures Strip(Lower(Normalise(ch))) == Strip(Lower(ch))
  {
    LowerIdempotent(Strip(ch));
    StripLowerCommute(ch);
    StripIdempotent(Lower(ch));
  }

  lemma LowerIdempotent(s: string)
    ensures Lower(Lower(s)) == Lower(s)
  {
  }

  /** Lower-casing maps no space to a non-space and no non-space to a space, so it commutes with stripping. */
  lemma StripLowerCommute(s: string)
    ensures Strip(Lower(s)) == Lower(Strip(s))
  {
    StripLeftLowerCommute(s);
    StripRightLowerCommute(StripLeft(s));
  }

  lemma LowerCharKeepsSpaces(c: char)
    ensures IsSpace(LowerChar(c)) == IsSpace(c)
    ensures IsSpace(c) ==> LowerChar(c) == c
  {
  }

  lemma {:induction false} StripLeftLowerCommute(s: string)
    ensures StripLeft(Lower(s)) == Lower(StripLeft(s))
    decreases |s|
  {
    if |s| > 0 {
      assert Lower(s)[0] == LowerChar(s[0]);
      assert Lower(s)[1..] == Lower(s[1..]);
      LowerCharKeepsSpaces(s[0]);
      if IsSpace(s[0]) {
        StripLeftLowerCommute(s[1..]);
      }
    }
  }

  lemma {:induction false} StripRightLowerCommute(s: string)
    ensures StripRight(Lower(s)) == Lower(StripRight(s))
    decreases |s|
  {
    if |s| > 0 {
      assert Lower(s)[|s| - 1] == LowerChar(s[|s| - 1]);
      assert Lower(s)[..|s| - 1] == Lower(s[..|s| - 1]);
      LowerCharKeepsSpaces(s[|s| - 1]);
      if IsSpace(s[|s| - 1]) {
        StripRightLowerCommute(s[..|s| - 1]);
      }
    }
  }

  /** Stripping twice is stripping once. */
  lemma StripIdempotent(s: string)
    ensures Strip(Strip(s)) == Strip(s)
  {
    var l := StripLeft(s);
    StripLeftIdempotent(s);
    StripRightKeepsStripped(l);
    StripRightIdempotent(l);
  }

  lemma {:induction false} StripLeftIdempotent(s: string)
    ensures StripLeft(StripLeft(s)) == StripLeft(s)
    ensures |StripLeft(s)| == 0 || !IsSpace(StripLeft(s)[0])
    decreases |s|
  {
    if |s| > 0 && IsSpace(s[0]) {
      StripLeftIdempotent(s[1..]);
    }
  }

  /** Stripping the right end of a left-stripped string leaves it left-stripped. */
  lemma {:induction false} StripRightKeepsStripped(s: string)
    requires |s| == 0 || !IsSpace(s[0])
    ensures StripLeft(StripRight(s)) == StripRight(s)
    decreases |s|
  {
    if |s| > 0 && IsSpace(s[|s| - 1]) {
      StripRightKeepsStripped(s[..|s| - 1]);
    }
  }

  lemma {:induction false} StripRightIdempotent(s: string)
    ensures StripRight(StripRight(s)) == StripRight(s)
    decreases |s|
  {
    if |s| > 0 && IsSpace(s[|s| - 1]) {
      StripRightIdempotent(s[..|s| - 1]);
    }
  }
}
