/** The image list of a search: the directory entries whose names end in one
    of the two supported extensions, in listing order (image_analysis.py,
    `search`, lines 67-73). Python's `str.endswith` with a tuple is a
    case-sensitive suffix test against each element. */
module Listing {

  /** The extensions `search` accepts, in the order the source lists them. */
  const Extensions: seq<string> := [".JPG", ".jpg"]

  /** Python's `name.endswith(suffix)`. */
  predicate EndsWith(name: string, suffix: string)
  {
    |suffix| <= |name| && name[|name| - |suffix|..] == suffix
  }

  /** `name.endswith(tuple(Extensions))`. */
  predicate IsImageName(name: string)
  {
    exists k :: 0 <= k < |Extensions| && EndsWith(name, Extensions[k])
  }

  /** The list comprehension of line 73 over a directory listing. */
  function ImageNames(listing: seq<string>): (images: seq<string>)
  {
    if listing == [] then []
    else (if IsImageName(listing[0]) then [listing[0]] else []) + ImageNames(listing[1..])
  }

  /** A name is kept exactly when it ends in ".JPG" or ".jpg". */
  lemma ImageNameCases(name: string)
    ensures IsImageName(name) <==> EndsWith(name, ".JPG") || EndsWith(name, ".jpg")
  {
    if EndsWith(name, ".JPG") { assert EndsWith(name, Extensions[0]); }
    if EndsWith(name, ".jpg") { assert EndsWith(name, Extensions[1]); }
  }

  /** Names ending in ".jpeg" or in a mixed-case ".Jpg" are not images to the
      search: the test is an exact, case-sensitive suffix match. */
  lemma OtherSpellingsExcluded(name: string)
    requires EndsWith(name, ".jpeg") || EndsWith(name, ".Jpg") || EndsWith(name, ".JPEG")
    ensures !IsImageName(name)
  {
    ImageNameCases(name);
    var n := |name|;
    if EndsWith(name, ".Jpg") {
      MismatchAt(name, ".Jpg", ".JPG", 2);
      MismatchAt(name, ".Jpg", ".jpg", 1);
    } else {
      // the dot of an accepted extension would stand where these names have a letter
      var ext := if EndsWith(name, ".jpeg") then ".jpeg" else ".JPEG";
      assert name[n - 4] == name[n - 5..][1] == ext[1];
      assert !EndsWith(name, ".JPG") by { LetterWhereDotIs(name, ".JPG", name[n - 4]); }
      assert !EndsWith(name, ".jpg") by { LetterWhereDotIs(name, ".jpg", name[n - 4]); }
    }
  }

  /** Two four-character suffixes that differ at position k cannot both end a name. */
  lemma MismatchAt(name: string, have: string, other: string, k: nat)
    requires |have| == 4 && |other| == 4 && k < 4 && have[k] != other[k]
    requires EndsWith(name, have)
    ensures !EndsWith(name, other)
  {
    assert name[|name| - 4..][k] == have[k];
  }

  /** A name whose fourth character from the end is not a dot does not end in
      a four-character suffix that starts with one. */
  lemma LetterWhereDotIs(name: string, other: string, c: char)
    requires |other| == 4 && other[0] == '.' && c != '.'
    requires |name| >= 4 && name[|name| - 4] == c
    ensures !EndsWith(name, other)
  {
    assert name[|name| - 4..][0] == c;
  }

  /** The filter keeps exactly the image names of the listing. */
  lemma {:induction false} ImageNamesMembers(listing: seq<string>, name: string)
    ensures name in ImageNames(listing) <==> name in listing && IsImageName(name)
  {
    if listing != [] {
      ImageNamesMembers(listing[1..], name);
      assert listing == [listing[0]] + listing[1..];
    }
  }

  /** The filter keeps the listing's order: filtering a concatenation is the
      concatenation of the filtered parts, and a single entry is kept alone or
      dropped. Together these determine `ImageNames` completely. */
  lemma {:induction false} ImageNamesAppend(a: seq<string>, b: seq<string>)
    ensures ImageNames(a + b) == ImageNames(a) + ImageNames(b)
  {
    if a != [] {
      assert (a + b)[1..] == a[1..] + b;
      ImageNamesAppend(a[1..], b);
    } else {
      assert a + b == b;
    }
  }

  /** A single entry is kept alone or dropped. */
  lemma ImageNamesSingle(name: string)
    ensures ImageNames([name]) == if IsImageName(name) then [name] else []
  {
    assert [name][1..] == [];
  }

  /** The filter never adds entries, and everything it keeps is an image name. */
  lemma {:induction false} ImageNamesShorter(listing: seq<string>)
    ensures |ImageNames(listing)| <= |listing|
    ensures forall k :: 0 <= k < |ImageNames(listing)| ==> IsImageName(ImageNames(listing)[k])
  {
    if listing != [] {
      ImageNamesShorter(listing[1..]);
    }
  }

  /** Distinct directory entries give distinct image names. */
  lemma {:induction false} ImageNamesDistinct(listing: seq<string>)
    requires forall i, j :: 0 <= i < j < |listing| ==> listing[i] != listing[j]
    ensures forall i, j :: 0 <= i < j < |ImageNames(listing)| ==>
              ImageNames(listing)[i] != ImageNames(listing)[j]
  {
    if listing != [] {
      var rest := listing[1..];
      ImageNamesDistinct(rest);
      ImageNamesMembers(rest, listing[0]);
      assert listing[0] !in rest;
    }
  }
}
