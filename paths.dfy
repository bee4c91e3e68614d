/** File-name derivation of the artifact stager: the basename of a download URL, the
    removal of ".gz" after gunzipping, the ".tar" test and the join onto the temporary
    directory. The gzip/tar payload handling and the file writes are not modelled. */
module Paths {

  /** The directory every downloaded, non-archive artifact is saved into. */
  const TMP_DIR: string := "/tmp"

  /** Python's `s.endswith(suffix)`: `s` is some prefix followed by `suffix`. */
  predicate EndsWith(s: string, suffix: string)
    ensures EndsWith(s, suffix) <==> |suffix| <= |s| && s[..|s| - |suffix|] + suffix == s
  {
    |suffix| <= |s| && s[|s| - |suffix|..] == suffix
  }

  /** Python's `os.path.join(dir, name)` with two POSIX components: an absolute `name`
      discards `dir`; otherwise a '/' is inserted unless `dir` is empty or already ends
      with one. */
  function Join(dir: string, name: string): (r: string)
    ensures EndsWith(r, name)
    ensures |name| > 0 && name[0] == '/' ==> r == name
  {
    if |name| > 0 && name[0] == '/' then name
    else if dir == "" || dir[|dir| - 1] == '/' then dir + name
    else dir + "/" + name
  }

  /** `url.split("/")[-1]`: the text after the last '/', or all of `url` when it holds
      none. The contract characterises it: a '/'-free suffix of `url` that is either the
      whole of `url` or directly preceded by a '/'. */
  function Basename(url: string): (r: string)
    ensures '/' !in r
    ensures |r| <= |url| && r == url[|url| - |r|..]
    ensures |r| == |url| || url[|url| - |r| - 1] == '/'
  {
    if url == [] then []
    else if url[|url| - 1] == '/' then []
    else Basename(url[..|url| - 1]) + [url[|url| - 1]]
  }

  /** A '/'-free suffix of `s` that is all of `s` or follows a '/': `Basename(s)` is the
      only one. */
  ghost predicate IsLastSegment(s: string, seg: string) {
    '/' !in seg && |seg| <= |s| && seg == s[|s| - |seg|..] &&
    (|seg| == |s| || s[|s| - |seg| - 1] == '/')
  }

  lemma LastSegmentUnique(s: string, seg: string)
    requires IsLastSegment(s, seg)
    ensures seg == Basename(s)
  {
  }

  /** Downloading `Join(dir, name)` stores it under `name` again: the basename undoes the
      join for every '/'-free name. */
  lemma BasenameOfJoin(dir: string, name: string)
    requires '/' !in name
    ensures Basename(Join(dir, name)) == name
  {
    var j := Join(dir, name);
    assert j[|j| - |name|..] == name;
    if |name| < |j| {
      assert dir != "";
      if dir[|dir| - 1] == '/' {
        assert j == dir + name;
        assert j[|j| - |name| - 1] == dir[|dir| - 1];
      } else {
        assert j == dir + "/" + name;
        assert j[|j| - |name| - 1] == '/';
      }
    }
    LastSegmentUnique(j, name);
  }

  /** ".gz" starts at index `i` of `s`. */
  predicate GzAt(s: string, i: int) {
    0 <= i && i + 3 <= |s| && s[i] == '.' && s[i + 1] == 'g' && s[i + 2] == 'z'
  }

  /** `s` holds no ".gz". */
  predicate GzFree(s: string) {
    forall i :: 0 <= i < |s| ==> !GzAt(s, i)
  }

  /** Python's `s.replace(".gz", "")`: one left-to-right pass that drops each
      non-overlapping ".gz" it meets. */
  function StripGz(s: string): (r: string)
    ensures |r| <= |s|
  {
    if |s| < 3 then s
    else if GzAt(s, 0) then StripGz(s[3..])
    else [s[0]] + StripGz(s[1..])
  }

  /** The pieces joined back together with ".gz" between them (Python's
      `".gz".join(pieces)`). */
  function JoinGz(pieces: seq<string>): string
    requires |pieces| >= 1
  {
    if |pieces| == 1 then pieces[0] else pieces[0] + ".gz" + JoinGz(pieces[1..])
  }

  /** All the pieces one after the other (Python's `"".join(pieces)`). */
  function Concat(pieces: seq<string>): string {
    if pieces == [] then [] else pieces[0] + Concat(pieces[1..])
  }

  /** Python's `s.split(".gz")`: the ".gz"-free pieces between the ".gz" occurrences met
      from left to right; joined back with ".gz" they give `s` again. */
  function SplitGz(s: string): (pieces: seq<string>)
    ensures |pieces| >= 1 && JoinGz(pieces) == s
    ensures forall k :: 0 <= k < |pieces| ==> GzFree(pieces[k])
  {
    if |s| < 3 then
      assert forall i :: 0 <= i < |s| ==> !GzAt(s, i);
      [s]
    else if GzAt(s, 0) then
      var rest := SplitGz(s[3..]);
      assert s == ".gz" + s[3..];
      assert GzFree("");
      [""] + rest
    else
      var rest := SplitGz(s[1..]);
      var head := [s[0]] + rest[0];
      assert head + JoinGz(rest)[|rest[0]|..] == s by {
        if |rest| == 1 {
        } else {
          assert JoinGz(rest) == rest[0] + ".gz" + JoinGz(rest[1..]);
        }
      }
      assert GzFree(head) by {
        forall i | 0 <= i < |head|
          ensures !GzAt(head, i)
        {
          if i > 0 {
            assert GzAt(head, i) ==> GzAt(rest[0], i - 1);
          }
        }
      }
      SplitGzHead(rest, s, head);
      [head] + rest[1..]
  }

  /** Re-joining after the first piece grew by the character in front of it. */
  lemma SplitGzHead(rest: seq<string>, s: string, head: string)
    requires |rest| >= 1 && |s| >= 1 && JoinGz(rest) == s[1..] && head == [s[0]] + rest[0]
    ensures JoinGz([head] + rest[1..]) == s
  {
    var p := [head] + rest[1..];
    if |rest| == 1 {
      assert p == [head];
      assert s == [s[0]] + s[1..];
    } else {
      assert p[1..] == rest[1..];
      assert JoinGz(rest) == rest[0] + ".gz" + JoinGz(rest[1..]);
      assert s == [s[0]] + s[1..];
    }
  }

  /** Scanning a ".gz"-free piece followed by ".gz" keeps the piece and drops the ".gz":
      no occurrence can straddle the boundary, since ".gz" overlaps no shifted copy of
      itself. */
  lemma {:induction false} StripGzAcross(a: string, b: string)
    requires GzFree(a)
    ensures StripGz(a + ".gz" + b) == a + StripGz(b)
  {
    var s := a + ".gz" + b;
    if a == [] {
      assert s == ".gz" + b;
      assert GzAt(s, 0);
      assert s[3..] == b;
    } else {
      assert s[1..] == a[1..] + ".gz" + b;
      NoGzAtFront(a, b);
      GzFreeTail(a);
      StripGzAcross(a[1..], b);
      assert StripGz(s) == [a[0]] + (a[1..] + StripGz(b));
      assert [a[0]] + a[1..] == a;
    }
  }

  /** A non-empty ".gz"-free piece followed by ".gz" does not start with ".gz". */
  lemma NoGzAtFront(a: string, b: string)
    requires GzFree(a) && a != []
    ensures !GzAt(a + ".gz" + b, 0)
  {
    var s := a + ".gz" + b;
    if |a| >= 3 {
      assert !GzAt(a, 0);
      assert s[1] == a[1] && s[2] == a[2];
    } else if |a| == 2 {
      assert s[2] == '.';
    } else {
      assert s[1] == '.';
    }
  }

  /** Dropping the first character keeps a string ".gz"-free. */
  lemma GzFreeTail(a: string)
    requires GzFree(a) && a != []
    ensures GzFree(a[1..])
  {
    forall i | 0 <= i < |a[1..]|
      ensures !GzAt(a[1..], i)
    {
      assert !GzAt(a, i + 1);
    }
  }

  /** A ".gz"-free string passes through unchanged. */
  lemma {:induction false} StripGzOfFree(a: string)
    requires GzFree(a)
    ensures StripGz(a) == a
  {
    if |a| >= 3 {
      assert !GzAt(a, 0);
      GzFreeTail(a);
      StripGzOfFree(a[1..]);
      assert [a[0]] + a[1..] == a;
    }
  }

  /** Removing ".gz" with `replace` equals splitting on ".gz" and joining the pieces with
      nothing between them: for every decomposition into ".gz"-free pieces. */
  lemma {:induction false} StripGzOfJoin(pieces: seq<string>)
    requires |pieces| >= 1
    requires forall k :: 0 <= k < |pieces| ==> GzFree(pieces[k])
    ensures StripGz(JoinGz(pieces)) == Concat(pieces)
  {
    if |pieces| == 1 {
      StripGzOfFree(pieces[0]);
      assert Concat(pieces) == pieces[0] + Concat([]);
    } else {
      StripGzOfJoin(pieces[1..]);
      StripGzAcross(pieces[0], JoinGz(pieces[1..]));
    }
  }

  /** `s.replace(".gz", "")` is `"".join(s.split(".gz"))`. */
  lemma StripGzIsSplitConcat(s: string)
    ensures StripGz(s) == Concat(SplitGz(s))
  {
    StripGzOfJoin(SplitGz(s));
  }

  /** Removing ".gz" adds no character: a '/'-free basename stays '/'-free. */
  lemma {:induction false} StripGzKeepsChars(s: string, c: char)
    requires c !in s
    ensures c !in StripGz(s)
  {
    if |s| >= 3 {
      if GzAt(s, 0) {
        StripGzKeepsChars(s[3..], c);
      } else {
        StripGzKeepsChars(s[1..], c);
      }
    }
  }

  /** One pass is not a fixpoint: an occurrence can be formed by the removal of another,
      so the result may still hold ".gz". */
  lemma StripGzMayLeaveGz()
    ensures StripGz("a..gzgz.gz") == "a.gz"
    ensures !GzFree(StripGz("a..gzgz.gz"))
  {
    var s := "a..gzgz.gz";
    assert !GzAt(s, 0) && !GzAt(s, 1) && GzAt(s, 2);
    assert s[1..] == "..gzgz.gz" && s[1..][1..] == ".gzgz.gz" && s[1..][1..][3..] == "gz.gz";
    var t := "gz.gz";
    assert !GzAt(t, 0) && !GzAt(t, 1) && GzAt(t, 2);
    assert t[1..] == "z.gz" && t[1..][1..] == ".gz" && t[1..][1..][3..] == "";
    assert GzAt("a.gz", 1);
  }

  /** The name a downloaded file is stored under after line 60: every ".gz" removed,
      but only when the name ends with ".gz". */
  function GunzippedName(filename: string): (r: string)
    ensures !EndsWith(filename, ".gz") ==> r == filename
    ensures EndsWith(filename, ".gz") ==> r == StripGz(filename) && |r| <= |filename| - 3
  {
    if EndsWith(filename, ".gz") then
      GunzippedLength(filename);
      StripGz(filename)
    else filename
  }

  /** A name ending in ".gz" loses at least that final ".gz". */
  lemma {:induction false} GunzippedLength(s: string)
    requires EndsWith(s, ".gz")
    ensures |StripGz(s)| <= |s| - 3
  {
    assert s[|s| - 3..] == ".gz";
    if |s| == 3 {
      assert s == ".gz";
      assert GzAt(s, 0);
    } else if !GzAt(s, 0) {
      var t := s[1..];
      assert t[|t| - 3..] == s[|s| - 3..];
      GunzippedLength(t);
    }
  }

  /** What `handle_file` does with a name: a ".tar" archive is unpacked (its members
      are not modelled), any other file is saved under the temporary directory; `Crash`
      names the step whose exception leaves the function. */
  datatype Staging = Unpack(archive: string) | Save(path: string) | Crash(step: string)

  /** The staging lines 51-79 are meant to perform: a ".gz" name is gunzipped and loses its
      ".gz" (line 60), then a ".tar" name is unpacked and any other name saved. */
  function StageName(filename: string): (r: Staging)
    ensures !r.Crash?
    ensures r.Unpack? <==> EndsWith(GunzippedName(filename), ".tar")
    ensures r.Unpack? ==> r.archive == GunzippedName(filename)
    ensures r.Save? ==> EndsWith(r.path, GunzippedName(filename))
  {
    var name := GunzippedName(filename);
    if EndsWith(name, ".tar") then Unpack(name) else Save(Join(TMP_DIR, name))
  }

  /** `handle_file` as written. `gzip.open(filename)` (line 53) opens the bare name for
      reading: a missing file raises FileNotFoundError and the `finally` then raises
      UnboundLocalError, while an existing one is read-only, so `write` at line 54 raises
      OSError. Neither is BadGzipFile, so a ".gz" name never reaches line 60.
      `tarfile.open(content)` (line 64) takes the downloaded bytes as a file name: real
      tar bytes hold NUL bytes, so opening that name raises ValueError (embedded null
      byte), and content with no NUL byte raises OSError; neither is a TarError. Only a
      name with neither suffix reaches `save_file`, under the path the intended staging
      gives. */
  function StageNameAsWritten(filename: string): (r: Staging)
    ensures r.Crash? <==> EndsWith(filename, ".gz") || EndsWith(filename, ".tar")
    ensures EndsWith(filename, ".gz") ==> r == Crash("gzip.open")
    ensures !EndsWith(filename, ".gz") && EndsWith(filename, ".tar") ==> r == Crash("tarfile.open")
    ensures !r.Crash? ==> r == StageName(filename)
  {
    if EndsWith(filename, ".gz") then Crash("gzip.open")
    else if EndsWith(filename, ".tar") then Crash("tarfile.open")
    else Save(Join(TMP_DIR, filename))
  }

  /** A gzipped download crashes the stager as written; the intended staging saves it
      without ".gz". */
  lemma GzipDownloadCrashes()
    ensures StageNameAsWritten("w.gz") == Crash("gzip.open")
    ensures StageName("w.gz") == Save("/tmp/w")
  {
    StageGzippedPlain("w");
    assert "w" + ".gz" == "w.gz";
    assert "/tmp" + "/" + "w" == "/tmp/w";
  }

  /** A tar download crashes the stager as written; the intended staging unpacks it. */
  lemma TarDownloadCrashes()
    ensures StageNameAsWritten("w.tar") == Crash("tarfile.open")
    ensures StageName("w.tar") == Unpack("w.tar")
  {
    var n := "w.tar";
    assert n[|n| - 4..] == ".tar";
    assert !EndsWith(n, ".gz") by {
      assert n[|n| - 3..] != ".gz";
    }
  }

  /** `handle_file_url`: the staging of whatever the final URL names. */
  function StageUrl(url: string): (r: Staging)
    ensures !r.Crash?
    ensures r.Unpack? <==> EndsWith(GunzippedName(Basename(url)), ".tar")
    ensures r.Unpack? ==> r.archive == GunzippedName(Basename(url))
    ensures r.Save? ==> Basename(r.path) == GunzippedName(Basename(url))
  {
    var name := Basename(url);
    StripGzKeepsChars(name, '/');
    BasenameOfJoin(TMP_DIR, GunzippedName(name));
    StageName(name)
  }

  /** A downloaded non-archive lands directly in the temporary directory, under the
      URL's last segment with ".gz" removed. */
  lemma StagedDownloadInTmp(url: string)
    requires StageUrl(url).Save?
    ensures StageUrl(url).path == TMP_DIR + "/" + GunzippedName(Basename(url))
  {
    var name := Basename(url);
    StripGzKeepsChars(name, '/');
    JoinTmp(GunzippedName(name));
  }

  /** A '/'-free name is joined onto the temporary directory with one '/'. */
  lemma JoinTmp(n: string)
    requires '/' !in n
    ensures Join(TMP_DIR, n) == TMP_DIR + "/" + n
  {
    if |n| > 0 {
      assert n[0] in n;
    }
  }

  /** The last segment of a download URL; a URL ending in '/' names nothing. */
  lemma BasenameExamples()
    ensures Basename("https://host/dl/lists.tar.gz") == "lists.tar.gz"
    ensures Basename("https://host/dl/") == ""
  {
    var url := "https://host/dl/lists.tar.gz";
    assert IsLastSegment(url, "lists.tar.gz");
    LastSegmentUnique(url, "lists.tar.gz");
  }

  /** A name "<stem>.gz" whose stem holds no ".gz" is stored as "<stem>". */
  lemma GunzippedStem(stem: string)
    requires GzFree(stem)
    ensures GunzippedName(stem + ".gz") == stem
  {
    StripGzAcross(stem, "");
    assert stem + ".gz" + "" == stem + ".gz";
    assert (stem + ".gz")[|stem|..] == ".gz";
  }

  /** A name that is neither gzipped nor a tar archive, and not absolute, is saved as
      "/tmp/<name>". */
  lemma StagePlainName(name: string)
    requires !EndsWith(name, ".gz") && !EndsWith(name, ".tar")
    requires |name| > 0 ==> name[0] != '/'
    ensures StageName(name) == Save(TMP_DIR + "/" + name)
  {
  }

  /** A gzipped plain file is saved under its name without ".gz". */
  lemma StageGzippedPlain(stem: string)
    requires GzFree(stem) && !EndsWith(stem, ".tar")
    requires |stem| > 0 ==> stem[0] != '/'
    ensures StageName(stem + ".gz") == Save(TMP_DIR + "/" + stem)
  {
    GunzippedStem(stem);
  }

  /** A gzipped tar archive is unpacked under its name without ".gz". */
  lemma StageGzippedArchive(stem: string)
    requires GzFree(stem)
    ensures StageName(stem + ".tar.gz") == Unpack(stem + ".tar")
  {
    var tar := stem + ".tar";
    assert GzFree(tar) by {
      forall i | 0 <= i < |tar|
        ensures !GzAt(tar, i)
      {
        if i + 3 <= |stem| {
          assert !GzAt(stem, i);
          assert tar[i] == stem[i] && tar[i + 1] == stem[i + 1] && tar[i + 2] == stem[i + 2];
        } else if i + 2 == |stem| {
          assert tar[i + 2] == '.';
        } else if i + 1 == |stem| {
          assert tar[i + 1] == '.';
        }
      }
    }
    GunzippedStem(tar);
    assert tar + ".gz" == stem + ".tar.gz";
    assert tar[|tar| - 4..] == ".tar";
  }
}
