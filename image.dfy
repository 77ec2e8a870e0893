/**
 Image pinning of the bs container: which image references get pinned to a
 content digest, and how the digest is read from the output of a pull.
 */
module Image {
  import opened Common
  import opened Strings

  /** The image used when neither the stored record nor the configuration
      names one. */
  const DefaultImage: string := "tsuru/bs"

  /** The start of the pull output line that carries the digest. */
  const DigestPrefix: string := "Digest: "

  /** `shouldPinBsImage`: split the reference on "/" into at most three
      parts; the reference is pinned when the last part has no ":". */
  predicate ShouldPin(image: string)
  {
    var parts := SplitN(image, '/', 3);
    |SplitN(parts[|parts| - 1], ':', 2)| < 2
  }

  function Min(a: nat, b: nat): nat
  {
    if a < b then a else b
  }

  lemma {:induction false} CountConcat(a: string, b: string, c: char)
    ensures Count(a + b, c) == Count(a, c) + Count(b, c)
    decreases |b|
  {
    if b == [] {
      assert a + b == a;
    } else {
      CountConcat(a, b[..|b| - 1], c);
      assert (a + b)[..|a + b| - 1] == a + b[..|b| - 1];
    }
  }

  lemma {:induction false} CountAbsent(s: string, c: char)
    requires c !in s
    ensures Count(s, c) == 0
    decreases |s|
  {
    if s != [] {
      CountAbsent(s[..|s| - 1], c);
    }
  }

  /** Where the last part of `SplitN(s, sep, n)` starts in `s`. */
  function LastStart(s: string, sep: char, n: nat): (start: nat)
    requires n > 0
    ensures start <= |s|
    decreases n
  {
    var i := Find(s, sep);
    if n == 1 || i == |s| then 0 else i + 1 + LastStart(s[i + 1..], sep, n - 1)
  }

  /** The last part of a split is the suffix of `s` from `LastStart`. */
  lemma {:induction false} LastPartIsSuffix(s: string, sep: char, n: nat)
    requires n > 0
    ensures var parts := SplitN(s, sep, n);
            parts[|parts| - 1] == s[LastStart(s, sep, n)..]
    decreases n
  {
    var i := Find(s, sep);
    if n > 1 && i < |s| {
      LastPartIsSuffix(s[i + 1..], sep, n - 1);
      var parts := SplitN(s, sep, n);
      assert parts == [s[..i]] + SplitN(s[i + 1..], sep, n - 1);
      assert s[i + 1..][LastStart(s[i + 1..], sep, n - 1)..] == s[LastStart(s, sep, n)..];
    }
  }

  /** Separators before position `k` of `s`, when `s[i]` is the first
      separator and `k` comes after it. */
  lemma CountPast(s: string, sep: char, i: nat, k: nat)
    requires i < k <= |s| && s[i] == sep && sep !in s[..i]
    ensures Count(s[..k], sep) == 1 + Count(s[i + 1..][..k - i - 1], sep)
  {
    assert s[..k] == s[..i] + [sep] + s[i + 1..][..k - i - 1];
    CountAbsent(s[..i], sep);
    CountConcat(s[..i] + [sep], s[i + 1..][..k - i - 1], sep);
    CountConcat(s[..i], [sep], sep);
  }

  /** Position `k` of `s` lies in the last part of `SplitN(s, sep, n)`
      exactly when at least `min(n - 1, Count(s))` separators come before it. */
  lemma {:induction false} LastStartAt(s: string, sep: char, n: nat, k: nat)
    requires n > 0 && k < |s|
    ensures k >= LastStart(s, sep, n) <==> Count(s[..k], sep) >= Min(n - 1, Count(s, sep))
    decreases n
  {
    var i := Find(s, sep);
    if i == |s| {
      assert s[..i] == s;
      CountAbsent(s, sep);
    } else if n > 1 {
      var rest := s[i + 1..];
      CountRest(s, sep, i);
      if k <= i {
        CountAbsentBefore(s, sep, i, k);
        LastStartPast(k, i + 1 + LastStart(rest, sep, n - 1), Count(s[..k], sep), Count(s, sep), n);
      } else {
        LastStartAt(rest, sep, n - 1, k - i - 1);
        LastStartAtAfter(s, sep, n, k, i);
      }
    }
  }

  /** The arithmetic of a position before the first separator. */
  lemma LastStartPast(k: nat, start: nat, before: nat, total: nat, n: nat)
    requires k < start && before == 0 && total >= 1 && n > 1
    ensures !(k >= start) && !(before >= Min(n - 1, total))
  {
  }

  /** The step of `LastStartAt` for a position after the first separator,
      at `i`, given the step's result on the rest of `s`. */
  lemma LastStartAtAfter(s: string, sep: char, n: nat, k: nat, i: nat)
    requires n > 1 && i < k < |s| && i == Find(s, sep)
    requires Count(s, sep) == 1 + Count(s[i + 1..], sep)
    requires k - i - 1 >= LastStart(s[i + 1..], sep, n - 1) <==>
             Count(s[i + 1..][..k - i - 1], sep) >= Min(n - 2, Count(s[i + 1..], sep))
    ensures k >= LastStart(s, sep, n) <==> Count(s[..k], sep) >= Min(n - 1, Count(s, sep))
  {
    var rest := s[i + 1..];
    var start, startRest := LastStart(s, sep, n), LastStart(rest, sep, n - 1);
    assert start == i + 1 + startRest;
    CountPast(s, sep, i, k);
    LastStartShift(k, i, start, startRest, Count(s[..k], sep), Count(rest[..k - i - 1], sep),
                   Count(s, sep), Count(rest, sep), n);
  }

  /** The arithmetic of a position after the first separator, at `i`. */
  lemma LastStartShift(k: nat, i: nat, start: nat, startRest: nat, before: nat, beforeRest: nat,
                        total: nat, totalRest: nat, n: nat)
    requires i < k && n > 1
    requires start == i + 1 + startRest && before == 1 + beforeRest && total == 1 + totalRest
    requires k - i - 1 >= startRest <==> beforeRest >= Min(n - 2, totalRest)
    ensures k >= start <==> before >= Min(n - 1, total)
  {
  }

  /** The separators of `s` are the first one, at `i`, and those after it. */
  lemma CountRest(s: string, sep: char, i: nat)
    requires i < |s| && s[i] == sep && sep !in s[..i]
    ensures Count(s, sep) == 1 + Count(s[i + 1..], sep)
  {
    CountPast(s, sep, i, |s|);
    assert s[..|s|] == s && s[i + 1..][..|s| - i - 1] == s[i + 1..];
  }

  /** No separator comes before the first one. */
  lemma CountAbsentBefore(s: string, sep: char, i: nat, k: nat)
    requires k <= i <= |s| && sep !in s[..i]
    ensures Count(s[..k], sep) == 0
  {
    assert s[..k] == s[..i][..k];
    CountAbsent(s[..k], sep);
  }

  /** `SplitN(t, ':', 2)` has fewer than two parts exactly when `t` has no ':'. */
  lemma SplitColon(t: string)
    ensures |SplitN(t, ':', 2)| < 2 <==> ':' !in t
  {
    var parts := SplitN(t, ':', 2);
    SplitNJoin(t, ':', 2);
    if |parts| == 2 {
      assert Join(parts, ':') == parts[0] + [':'] + parts[1];
      assert t[|parts[0]|] == ':';
    }
  }

  /** Every ':' of `image` comes before its second '/' and before some
      '/': no ':' lies after the second slash, nor after the only slash, nor
      in a reference without slashes. */
  predicate ColonsBeforeLastPart(image: string)
  {
    forall k :: 0 <= k < |image| && image[k] == ':' ==>
      Count(image[..k], '/') < 2 && Count(image[..k], '/') < Count(image, '/')
  }

  /** The pin predicate is the absence of ':' after `LastStart`. */
  lemma ShouldPinLastPart(image: string)
    ensures ShouldPin(image) <==> ':' !in image[LastStart(image, '/', 3)..]
  {
    LastPartIsSuffix(image, '/', 3);
    SplitColon(image[LastStart(image, '/', 3)..]);
  }

  /** The pin rule by position: a reference is pinned exactly when all its
      colons come before the part that follows the second slash (or the only
      slash). */
  lemma ShouldPinIff(image: string)
    ensures ShouldPin(image) <==> ColonsBeforeLastPart(image)
  {
    var start := LastStart(image, '/', 3);
    ShouldPinLastPart(image);
    if ':' !in image[start..] {
      ColonsOutsideLastPart(image);
    } else {
      var j :| 0 <= j < |image[start..]| && image[start..][j] == ':';
      ColonInLastPart(image, start + j);
    }
  }

  /** No ':' after `LastStart` means every ':' comes before the last part. */
  lemma ColonsOutsideLastPart(image: string)
    requires ':' !in image[LastStart(image, '/', 3)..]
    ensures ColonsBeforeLastPart(image)
  {
    var start := LastStart(image, '/', 3);
    forall j | start <= j < |image| ensures image[j] != ':' {
      assert image[j] == image[start..][j - start];
    }
    forall k | 0 <= k < |image| && image[k] == ':'
      ensures Count(image[..k], '/') < 2 && Count(image[..k], '/') < Count(image, '/')
    {
      LastStartAt(image, '/', 3, k);
    }
  }

  /** A ':' at or after `LastStart` breaks `ColonsBeforeLastPart`. */
  lemma ColonInLastPart(image: string, k: nat)
    requires LastStart(image, '/', 3) <= k < |image| && image[k] == ':'
    ensures !ColonsBeforeLastPart(image)
  {
    LastStartAt(image, '/', 3, k);
  }

  /** `Find` on a string whose first `c` is at `i`. */
  lemma FindAt(s: string, c: char, i: nat)
    requires i <= |s| && (i < |s| ==> s[i] == c)
    requires forall j :: 0 <= j < i ==> s[j] != c
    ensures Find(s, c) == i
  {
  }

  /** An untagged reference is pinned. */
  lemma PinUntagged()
    ensures ShouldPin("tsuru/bs")
  {
    var s := "tsuru/bs";
    FindAt(s, '/', 5);
    FindAt(s[6..], '/', 2);
    ShouldPinLastPart(s);
    assert s[6..][2..] == [];
  }

  /** A reference "registry/repo/name" is pinned whenever the name has no
      tag: a ':' in the registry part (a port) does not count. */
  lemma PinRegistryPort(registry: string, repo: string, name: string)
    requires '/' !in registry && '/' !in repo && ':' !in name
    ensures ShouldPin(registry + "/" + repo + "/" + name)
  {
    var s := registry + "/" + repo + "/" + name;
    FindAt(s, '/', |registry|);
    var r := s[|registry| + 1..];
    assert r == repo + "/" + name;
    FindAt(r, '/', |repo|);
    assert r[|repo| + 1..] == name;
    assert LastStart(s, '/', 3) >= |registry| + 1 + |repo| + 1;
    ShouldPinLastPart(s);
    assert s[|registry| + 1 + |repo| + 1..] == name;
  }

  /** A reference "repo/name:tag" with a tag is not pinned. */
  lemma NoPinTagged(repo: string, name: string, tag: string)
    requires '/' !in repo && '/' !in name && '/' !in tag
    ensures !ShouldPin(repo + "/" + name + ":" + tag)
  {
    var s := repo + "/" + name + ":" + tag;
    FindAt(s, '/', |repo|);
    var r := s[|repo| + 1..];
    assert r == name + ":" + tag;
    FindAt(r, '/', |r|);
    assert LastStart(s, '/', 3) == |repo| + 1;
    ShouldPinLastPart(s);
    assert s[|repo| + 1..][|name|] == ':';
  }

  /** Everything after the second slash counts as the last part, so a ':'
      there stops pinning even when another '/' follows it. */
  lemma NoPinColonAfterSecondSlash()
    ensures !ShouldPin("a/b/c:d/e")
  {
    var s := "a/b/c:d/e";
    FindAt(s, '/', 1);
    FindAt(s[2..], '/', 1);
    ShouldPinLastPart(s);
    assert LastStart(s, '/', 3) == 4;
    assert s[4..][1] == ':';
  }

  /** The digest of the first line of `lines` that starts with "Digest: ",
      or `None` when no line does. This is what the multi-line pattern
      `^Digest: (.*)$` captures at its first match. */
  function FirstDigest(lines: seq<string>): (r: Option<string>)
    ensures r.None? <==> forall i :: 0 <= i < |lines| ==> !HasPrefix(lines[i], DigestPrefix)
    ensures r.Some? ==>
              exists i :: 0 <= i < |lines| && lines[i] == DigestPrefix + r.value &&
                          forall j :: 0 <= j < i ==> !HasPrefix(lines[j], DigestPrefix)
  {
    if lines == [] then None
    else if HasPrefix(lines[0], DigestPrefix) then
      assert lines[0] == DigestPrefix + lines[0][|DigestPrefix|..];
      Some(lines[0][|DigestPrefix|..])
    else
      var r := FirstDigest(lines[1..]);
      if r.Some? then
        ghost var i :| 0 <= i < |lines[1..]| && lines[1..][i] == DigestPrefix + r.value &&
                       forall j :: 0 <= j < i ==> !HasPrefix(lines[1..][j], DigestPrefix);
        assert lines[i + 1] == DigestPrefix + r.value;
        r
      else
        r
  }

  /** The digest-append step of `pullBsImage`: a pinnable reference gets
      "@" and the first digest of the pull output appended. */
  function PinnedImage(image: string, lines: seq<string>): string
  {
    if ShouldPin(image) then
      match FirstDigest(lines)
      case Some(digest) => image + "@" + digest
      case None => image
    else image
  }

  /** A pinnable reference is pinned to the rest of the first "Digest: " line. */
  lemma PinnedAtFirstDigestLine(image: string, lines: seq<string>, i: nat)
    requires ShouldPin(image)
    requires i < |lines| && HasPrefix(lines[i], DigestPrefix)
    requires forall j :: 0 <= j < i ==> !HasPrefix(lines[j], DigestPrefix)
    ensures PinnedImage(image, lines) == image + "@" + lines[i][|DigestPrefix|..]
  {
    var d := FirstDigest(lines).value;
    var i' :| 0 <= i' < |lines| && lines[i'] == DigestPrefix + d &&
              forall j :: 0 <= j < i' ==> !HasPrefix(lines[j], DigestPrefix);
    assert HasPrefix(lines[i'], DigestPrefix);
    assert i' == i;
  }

  /** A reference that is not pinnable, or an output without a digest line,
      leaves the reference as it was. */
  lemma PinnedUnchanged(image: string, lines: seq<string>)
    requires !ShouldPin(image) || forall i :: 0 <= i < |lines| ==> !HasPrefix(lines[i], DigestPrefix)
    ensures PinnedImage(image, lines) == image
  {
  }
}
