/**
 * The post address scheme. A post is stored and looked up under a slug made
 * from its title when it is published, and the post page turns the slug back
 * into a display title.
 */
module Slug {
  import opened Strings

  /**
   * The slug stored for a title: `title.trim().split(" ").join("-")`. It is the
   * trimmed title with every space character (and only the space character)
   * turned into a hyphen, so it contains no space at all.
   */
  function Encode(title: string): (slug: string)
    ensures slug == Replace(Trim(title), ' ', '-')
    ensures |slug| == |Trim(title)|
    ensures ' ' !in slug
  {
    JoinSplitIsReplace(Trim(title), ' ', '-');
    Join(Split(Trim(title), ' '), "-")
  }

  /**
   * The display title for a slug: `slug.split("-").join(" ")`. Every hyphen,
   * and nothing else, becomes a space.
   */
  function Decode(slug: string): (title: string)
    ensures title == Replace(slug, '-', ' ')
    ensures '-' !in title
  {
    JoinSplitIsReplace(slug, '-', ' ');
    Join(Split(slug, '-'), " ")
  }

  /** Equal length, and at every position the same character or a space and a hyphen in either order. */
  predicate SameUpToSpaceHyphen(x: string, y: string)
  {
    |x| == |y| && forall i :: 0 <= i < |x| ==> x[i] == y[i] || (x[i] in " -" && y[i] in " -")
  }

  /** Two titles share a slug exactly when their trims differ only by spaces written as hyphens. */
  lemma SlugsCollide(a: string, b: string)
    ensures Encode(a) == Encode(b) <==> SameUpToSpaceHyphen(Trim(a), Trim(b))
  {
    var x, y := Trim(a), Trim(b);
    if SameUpToSpaceHyphen(x, y) {
      assert forall i :: 0 <= i < |x| ==> Encode(a)[i] == Encode(b)[i];
    }
    if Encode(a) == Encode(b) {
      forall i | 0 <= i < |x|
        ensures x[i] == y[i] || (x[i] in " -" && y[i] in " -")
      {
        assert Encode(a)[i] == Encode(b)[i];
      }
    }
  }

  /** Writing a hyphen where a trimmed title has a space gives the same slug. */
  lemma HyphenatedTitleCollides(title: string)
    requires Trim(title) == title
    ensures Encode(Replace(title, ' ', '-')) == Encode(title)
  {
    var h := Replace(title, ' ', '-');
    if |title| > 0 {
      assert h[0] == title[0] && h[|h| - 1] == title[|title| - 1];
    }
    TrimmedIsFixed(h);
    assert Replace(h, ' ', '-') == h;
  }

  /**
   * The example of the collision: "a b" and "a-b" are stored under the same
   * slug "a-b", whose page is titled "a b".
   */
  lemma SpaceAndHyphenShareSlug()
    ensures Encode("a b") == Encode("a-b") == "a-b"
    ensures Decode("a-b") == "a b"
  {
    TrimmedIsFixed("a b");
    TrimmedIsFixed("a-b");
    assert Replace("a-b", '-', ' ') == "a b";
  }

  /**
   * The post page shows the trimmed title back exactly when the trimmed title
   * has no hyphen of its own; an original hyphen comes back as a space.
   */
  lemma DecodeEncode(title: string)
    ensures Decode(Encode(title)) == Trim(title) <==> '-' !in Trim(title)
  {
    var t := Trim(title);
    if '-' in t {
      var i :| 0 <= i < |t| && t[i] == '-';
      assert Decode(Encode(title))[i] == ' ';
    } else {
      assert forall i :: 0 <= i < |t| ==> t[i] != '-';
    }
  }

  /** Slugging a slug changes nothing. */
  lemma EncodeIdempotent(title: string)
    ensures Encode(Encode(title)) == Encode(title)
  {
    var e := Encode(title);
    var t := Trim(title);
    if |t| > 0 {
      assert e[0] == t[0] && e[|e| - 1] == t[|t| - 1];
    }
    TrimmedIsFixed(e);
    assert Replace(e, ' ', '-') == e;
  }
}
