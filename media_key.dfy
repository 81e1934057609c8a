/**
 The storage key a firm's image is deleted under. The firm controller does not
 keep the key it uploaded under; it recovers one from the image URL with
 `url.split("/").pop().split(".")[0]` and deletes `firms/<that>`.
 This module models JavaScript's `String.prototype.split` for a one-character
 separator, `Array.prototype.pop` and `[0]` on its result, and proves what the
 derived key looks like.
 */
module MediaKey {

  import opened Wrappers

  /** JavaScript `s.split([sep])`: the maximal pieces between separators, in order.
      There is always at least one piece ("" splits into [""]). */
  function Split(s: string, sep: char): (pieces: seq<string>)
    ensures |pieces| >= 1
    ensures forall i :: 0 <= i < |pieces| ==> sep !in pieces[i]
    ensures pieces[0] <= s
  {
    if |s| == 0 then [""]
    else if s[0] == sep then [""] + Split(s[1..], sep)
    else
      var tail := Split(s[1..], sep);
      [[s[0]] + tail[0]] + tail[1..]
  }

  /** The inverse direction: glue pieces back together with the separator in between. */
  function Join(pieces: seq<string>, sep: char): string
    requires |pieces| >= 1
  {
    if |pieces| == 1 then pieces[0] else pieces[0] + [sep] + Join(pieces[1..], sep)
  }

  /** `array.pop()` on a non-empty array: its last element. */
  function Last(pieces: seq<string>): (last: string)
    requires |pieces| >= 1
    ensures pieces == pieces[..|pieces| - 1] + [last]
  {
    pieces[|pieces| - 1]
  }

  /** `url.split("/").pop().split(".")[0]`: the text of the last path segment
      before its first dot. */
  function PublicId(url: string): (id: string)
    ensures '/' !in id && '.' !in id
  {
    var segment := Last(Split(url, '/'));
    var id := Split(segment, '.')[0];
    assert id == segment[..|id|];
    id
  }

  /** The argument of `cloudinary.uploader.destroy`: the derived id under the
      `firms` folder, or no call at all when the firm has no truthy image. */
  function FirmImageKey(image: Option<string>): (key: Option<string>)
    ensures key.Some? <==> image.Some? && image.value != ""
    ensures key.Some? ==> |key.value| >= 6 && key.value[..6] == "firms/"
    ensures key.Some? ==> '/' !in key.value[6..] && '.' !in key.value[6..]
  {
    if image.Some? && image.value != "" then
      var key := "firms/" + PublicId(image.value);
      assert key[6..] == PublicId(image.value);
      Some(key)
    else None
  }

  /** Splitting and joining again gives the original string back. */
  lemma {:induction false} JoinSplit(s: string, sep: char)
    ensures Join(Split(s, sep), sep) == s
  {
    if |s| == 0 {
    } else if s[0] == sep {
      JoinSplit(s[1..], sep);
      assert s == [sep] + s[1..];
    } else {
      var tail := Split(s[1..], sep);
      JoinSplit(s[1..], sep);
      if |tail| == 1 {
        assert s == [s[0]] + s[1..];
      } else {
        var head := [s[0]] + tail[0];
        assert Split(s, sep)[1..] == tail[1..];
        calc {
          Join(Split(s, sep), sep);
          head + [sep] + Join(tail[1..], sep);
          [s[0]] + (tail[0] + [sep] + Join(tail[1..], sep));
          [s[0]] + Join(tail, sep);
          [s[0]] + s[1..];
          s;
        }
      }
    }
  }

  /** Joining pieces that hold no separator and splitting again gives the pieces back. */
  lemma {:induction false} SplitJoin(pieces: seq<string>, sep: char)
    requires |pieces| >= 1
    requires forall i :: 0 <= i < |pieces| ==> sep !in pieces[i]
    ensures Split(Join(pieces, sep), sep) == pieces
  {
    SplitWithoutSep(pieces[0], sep);
    if |pieces| > 1 {
      SplitJoin(pieces[1..], sep);
      SplitAtSep(pieces[0], Join(pieces[1..], sep), sep);
      assert pieces == [pieces[0]] + pieces[1..];
    }
  }

  /** A string without the separator is a single piece. */
  lemma {:induction false} SplitWithoutSep(s: string, sep: char)
    requires sep !in s
    ensures Split(s, sep) == [s]
  {
    if |s| > 0 {
      assert sep !in s[1..] by {
        forall ch | ch in s[1..] ensures ch in s { }
      }
      SplitWithoutSep(s[1..], sep);
      assert s == [s[0]] + s[1..];
    }
  }

  /** A separator between two strings separates their pieces. */
  lemma {:induction false} SplitAtSep(x: string, y: string, sep: char)
    ensures Split(x + [sep] + y, sep) == Split(x, sep) + Split(y, sep)
  {
    var s := x + [sep] + y;
    if |x| == 0 {
      assert s == [sep] + y;
      assert s[1..] == y;
    } else {
      assert s[1..] == x[1..] + [sep] + y;
      SplitAtSep(x[1..], y, sep);
      SplitCons(x, sep, Split(x[1..], sep), Split(y, sep));
    }
  }

  /** One step of SplitAtSep: how the pieces of `x` followed by more pieces extend. */
  lemma SplitCons(x: string, sep: char, tail: seq<string>, rest: seq<string>)
    requires |x| > 0 && |tail| >= 1
    requires tail == Split(x[1..], sep)
    ensures Split(x, sep) + rest ==
            if x[0] == sep then [""] + (tail + rest)
            else [[x[0]] + (tail + rest)[0]] + (tail + rest)[1..]
  {
    var both := tail + rest;
    assert both[0] == tail[0];
    assert both[1..] == tail[1..] + rest;
  }

  /** For a URL ending in `/<k>.<rest>` with no further slash, the derived id is `k`. */
  lemma PublicIdOfUrl(prefix: string, k: string, rest: string)
    requires '/' !in k && '.' !in k && '/' !in rest
    ensures PublicId(prefix + "/" + k + "." + rest) == k
  {
    var segment := k + "." + rest;
    assert '/' !in segment;
    assert prefix + "/" + k + "." + rest == prefix + ['/'] + segment;
    SplitAtSep(prefix, segment, '/');
    SplitWithoutSep(segment, '/');
    assert Last(Split(prefix + "/" + k + "." + rest, '/')) == segment;
    SplitAtSep(k, rest, '.');
    SplitWithoutSep(k, '.');
  }

  /** For a URL ending in `/<k>` where `k` has no dot, the derived id is `k`. */
  lemma PublicIdOfUrlWithoutExtension(prefix: string, k: string)
    requires '/' !in k && '.' !in k
    ensures PublicId(prefix + "/" + k) == k
  {
    assert prefix + "/" + k == prefix + ['/'] + k;
    SplitAtSep(prefix, k, '/');
    SplitWithoutSep(k, '/');
    SplitWithoutSep(k, '.');
  }

  /** For an image reference with no slash at all, `k.rest`, the derived id is `k`. */
  lemma PublicIdOfName(k: string, rest: string)
    requires '/' !in k && '.' !in k && '/' !in rest
    ensures PublicId(k + "." + rest) == k
  {
    var segment := k + "." + rest;
    assert '/' !in segment;
    SplitWithoutSep(segment, '/');
    assert segment == k + ['.'] + rest;
    SplitAtSep(k, rest, '.');
    SplitWithoutSep(k, '.');
  }

  /** For an image reference with neither slash nor dot, the derived id is the whole reference. */
  lemma PublicIdOfNameWithoutExtension(k: string)
    requires '/' !in k && '.' !in k
    ensures PublicId(k) == k
  {
    SplitWithoutSep(k, '/');
    SplitWithoutSep(k, '.');
  }

  /** A reference ending in a slash has an empty last segment: the derived id is
      empty and the destroy call goes to the bare folder `firms/`. */
  lemma PublicIdTrailingSlash(prefix: string)
    ensures PublicId(prefix + "/") == ""
    ensures FirmImageKey(Some(prefix + "/")) == Some("firms/")
  {
    assert prefix + "/" == prefix + ['/'] + "";
    SplitAtSep(prefix, "", '/');
    assert "firms/" + "" == "firms/";
  }

  /** The extra slash condition above is needed: a slash after the first dot
      moves the last segment past it. */
  lemma PublicIdSlashAfterDot()
    ensures PublicId("a/b.c/d.e") == "d"
  {
    assert "a/b.c/d.e" == "a/b.c" + "/" + "d" + "." + "e";
    PublicIdOfUrl("a/b.c", "d", "e");
  }

  /** Everything after the first dot of the last segment is dropped, so a
      stored name that itself holds a dot is not recovered in full. */
  lemma PublicIdDropsAfterFirstDot(prefix: string, a: string, b: string, ext: string)
    requires '/' !in a && '.' !in a && '/' !in b && '/' !in ext
    ensures PublicId(prefix + "/" + a + "." + b + "." + ext) == a
  {
    assert prefix + "/" + a + "." + b + "." + ext == prefix + "/" + a + "." + (b + "." + ext);
    PublicIdOfUrl(prefix, a, b + "." + ext);
  }

  /** Deriving the id of an id changes nothing. */
  lemma PublicIdIdempotent(url: string)
    ensures PublicId(PublicId(url)) == PublicId(url)
  {
    var id := PublicId(url);
    SplitWithoutSep(id, '/');
    SplitWithoutSep(id, '.');
  }

  /** The delete target for a URL ending in `/<k>.<rest>` is `firms/<k>`. */
  lemma FirmImageKeyOfUrl(prefix: string, k: string, rest: string)
    requires '/' !in k && '.' !in k && '/' !in rest
    ensures FirmImageKey(Some(prefix + "/" + k + "." + rest)) == Some("firms/" + k)
  {
    PublicIdOfUrl(prefix, k, rest);
  }

  /** The example of a stored reference `firms/abc123.png`: the delete goes to `firms/abc123`. */
  lemma FirmImageKeyExample()
    ensures FirmImageKey(Some("firms/abc123.png")) == Some("firms/abc123")
  {
    assert "firms/abc123.png" == "firms" + "/" + "abc123" + "." + "png";
    FirmImageKeyOfUrl("firms", "abc123", "png");
    assert "firms/" + "abc123" == "firms/abc123";
  }
}
