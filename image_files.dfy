/** Selection of the invoice image files from a directory listing: the list
    comprehension that keeps the names whose lower-cased form ends in `.png`,
    `.jpg` or `.jpeg`. */
module ImageFiles {
  import opened PyStr

  /** `name.lower().endswith(('.png', '.jpg', '.jpeg'))`. An image name has at least
      four characters, ends in a `g` of either case, and its fourth-last or fifth-last
      character is a dot: so a bare `jpg` is no image name. */
  predicate IsImageName(name: string): (r: bool)
    ensures r ==>
              && |name| >= 4
              && LowerChar(name[|name| - 1]) == 'g'
              && (name[|name| - 4] == '.' || (|name| >= 5 && name[|name| - 5] == '.'))
  {
    var low := Lower(name);
    SuffixEnds(low, ".png");
    SuffixEnds(low, ".jpg");
    SuffixEnds(low, ".jpeg");
    EndsWith(low, ".png") || EndsWith(low, ".jpg") || EndsWith(low, ".jpeg")
  }

  /** A string that ends with `suffix` has the suffix's first character `|suffix|`
      places from its end and the suffix's last character last. */
  lemma SuffixEnds(s: string, suffix: string)
    requires suffix != []
    ensures EndsWith(s, suffix) ==>
              s[|s| - |suffix|] == suffix[0] && s[|s| - 1] == suffix[|suffix| - 1]
  {
    if EndsWith(s, suffix) {
      assert s[|s| - |suffix|..][0] == s[|s| - |suffix|];
      assert s[|s| - |suffix|..][|suffix| - 1] == s[|s| - 1];
    }
  }

  /** `s` can be obtained from `t` by deleting elements: its elements appear in `t`
      in the same order. */
  predicate IsSubsequence<T(==)>(s: seq<T>, t: seq<T>)
    decreases |t|
  {
    s == [] || (t != [] && ((s[0] == t[0] && IsSubsequence(s[1..], t[1..])) || IsSubsequence(s, t[1..])))
  }

  /** The image files of a listing, in listing order. */
  function SelectImages(listing: seq<string>): (files: seq<string>)
    ensures forall f :: f in files <==> f in listing && IsImageName(f)
    ensures IsSubsequence(files, listing)
    ensures |files| <= |listing|
  {
    if listing == [] then []
    else if IsImageName(listing[0]) then [listing[0]] + SelectImages(listing[1..])
    else SelectImages(listing[1..])
  }

  /** Selection distributes over concatenation, so the kept names keep their relative
      order: the filter is applied to each name independently of its neighbours. */
  lemma {:induction false} SelectImagesConcat(a: seq<string>, b: seq<string>)
    ensures SelectImages(a + b) == SelectImages(a) + SelectImages(b)
  {
    if a == [] {
      assert a + b == b;
    } else {
      assert (a + b)[1..] == a[1..] + b;
      SelectImagesConcat(a[1..], b);
    }
  }

  /** A single name is kept exactly when it is an image name. */
  lemma SelectImagesSingle(name: string)
    ensures SelectImages([name]) == if IsImageName(name) then [name] else []
  {
  }

  /** Case does not matter: a name and its lower-cased form are selected alike. */
  lemma IsImageNameIgnoresCase(name: string)
    ensures IsImageName(name) <==> IsImageName(Lower(name))
  {
    LowerIdempotent(name);
  }

  /** Upper-case extensions are accepted. */
  lemma KeptExamples()
    ensures IsImageName("A.JPEG") && IsImageName("b.Png")
  {
    var jpeg, png := Lower("A.JPEG"), Lower("b.Png");
    assert jpeg[0] == 'a' && jpeg[1] == '.' && jpeg[2] == 'j' && jpeg[3] == 'p' && jpeg[4] == 'e' && jpeg[5] == 'g';
    assert jpeg == "a.jpeg";
    assert png[0] == 'b' && png[1] == '.' && png[2] == 'p' && png[3] == 'n' && png[4] == 'g';
    assert png == "b.png";
  }

  /** Other extensions, a bare extension without its dot and an image extension that is
      not last are rejected. */
  lemma DroppedExamples()
    ensures !IsImageName("a.gif") && !IsImageName("jpg") && !IsImageName("x.jpg.txt")
  {
  }
}
