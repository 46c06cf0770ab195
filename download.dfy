/**
 * The decisions the `/download` handler takes around the extractor: the
 * parameter check, which downloaded file to send, its content type, and
 * the display name put in the `Content-Disposition` header.
 * `isAlnum` stands for Python's Unicode `str.isalnum` on one character.
 */
module Download {
  import opened Wrappers
  import opened PyText

  /**
   * Line 100: both query parameters must be present and non-empty (no
   * trimming here); otherwise one combined "missing parameters" error.
   */
  function ParamsPresent(url: Option<string>, formatId: Option<string>): (ok: bool)
    ensures !ok <==> url == None || url == Some("") || formatId == None || formatId == Some("")
  {
    url.Some? && |url.value| > 0 && formatId.Some? && |formatId.value| > 0
  }

  /** Lines 123-127: no file in the temporary directory is a failed download; otherwise the first entry is sent. */
  function PickDownloaded(listing: seq<string>): (r: Option<string>)
    ensures r.None? <==> listing == []
    ensures r.Some? ==> r.value in listing && r.value == listing[0]
  {
    if |listing| == 0 then None else Some(listing[0])
  }

  // ----- Content type -----

  const WebmType: string := "video/webm"
  const MatroskaType: string := "video/x-matroska"
  const Mp4Type: string := "video/mp4"

  /**
   * Lines 131-136: the lower-cased extension of the downloaded file and the
   * content type chosen from it, `video/mp4` unless the extension is
   * `.webm` or `.mkv`.
   */
  method ClassifyContentType(fileName: string) returns (ext: string, contentType: string)
    ensures ext == Lower(SplitExt(fileName))
    ensures contentType == WebmType <==> ext == ".webm"
    ensures contentType == MatroskaType <==> ext == ".mkv"
    ensures contentType == Mp4Type <==> ext != ".webm" && ext != ".mkv"
    ensures contentType in {WebmType, MatroskaType, Mp4Type}
  {
    ext := Lower(SplitExt(fileName));
    contentType := Mp4Type;
    if ext == ".webm" {
      contentType := WebmType;
    } else if ext == ".mkv" {
      contentType := MatroskaType;
    }
  }

  // ----- Safe display name -----

  const Fallback: string := "video"

  /** The characters a safe name may keep. */
  predicate Allowed(c: char, isAlnum: char -> bool) {
    isAlnum(c) || c == ' ' || c == '-' || c == '_'
  }

  predicate AllAllowed(s: string, isAlnum: char -> bool) {
    forall i :: 0 <= i < |s| ==> Allowed(s[i], isAlnum)
  }

  /** Python's `isalnum` accepts every ASCII letter and digit (and more). */
  ghost predicate AcceptsAsciiAlnum(isAlnum: char -> bool) {
    forall c: char :: ('a' <= c <= 'z' || 'A' <= c <= 'Z' || '0' <= c <= '9') ==> isAlnum(c)
  }

  /** The generator `c for c in title if c.isalnum() or c in (' ', '-', '_')`, joined. */
  function KeepAllowed(title: string, isAlnum: char -> bool): (r: string)
    ensures |r| <= |title|
    ensures AllAllowed(r, isAlnum)
    ensures AllAllowed(title, isAlnum) ==> r == title
  {
    if |title| == 0 then []
    else
      var rest := KeepAllowed(title[1..], isAlnum);
      if Allowed(title[0], isAlnum) then [title[0]] + rest else rest
  }

  /** The filter keeps every occurrence of every allowed character, and nothing else. */
  lemma {:induction false} KeepAllowedCounts(title: string, isAlnum: char -> bool, c: char)
    ensures Allowed(c, isAlnum) ==> multiset(KeepAllowed(title, isAlnum))[c] == multiset(title)[c]
    ensures !Allowed(c, isAlnum) ==> multiset(KeepAllowed(title, isAlnum))[c] == 0
  {
    if |title| > 0 {
      var head, tail := title[0], title[1..];
      var rest := KeepAllowed(tail, isAlnum);
      KeepAllowedCounts(tail, isAlnum, c);
      assert title == [head] + tail;
      assert multiset(title) == multiset([head]) + multiset(tail);
      if Allowed(head, isAlnum) {
        assert KeepAllowed(title, isAlnum) == [head] + rest;
        assert multiset(KeepAllowed(title, isAlnum)) == multiset([head]) + multiset(rest);
      } else {
        assert KeepAllowed(title, isAlnum) == rest;
        assert Allowed(c, isAlnum) ==> head != c;
      }
    }
  }

  /** The filter works character by character, so it keeps the title's order: it distributes over concatenation. */
  lemma {:induction false} KeepAllowedAppend(a: string, b: string, isAlnum: char -> bool)
    ensures KeepAllowed(a + b, isAlnum) == KeepAllowed(a, isAlnum) + KeepAllowed(b, isAlnum)
  {
    if |a| == 0 {
      assert a + b == b;
    } else {
      assert (a + b)[0] == a[0];
      assert (a + b)[1..] == a[1..] + b;
      KeepAllowedAppend(a[1..], b, isAlnum);
    }
  }

  /** Lines 155-157: the filtered title, trailing whitespace removed, or "video" when nothing is left. */
  function SafeFilename(title: string, isAlnum: char -> bool): (r: string)
    ensures r != []
    ensures !IsSpace(r[|r| - 1])
    ensures RStrip(KeepAllowed(title, isAlnum)) == [] ==> r == Fallback
    ensures RStrip(KeepAllowed(title, isAlnum)) != [] ==> r <= KeepAllowed(title, isAlnum)
    ensures RStrip(KeepAllowed(title, isAlnum)) != [] ==>
      forall i :: |r| <= i < |KeepAllowed(title, isAlnum)| ==> IsSpace(KeepAllowed(title, isAlnum)[i])
    ensures r == Fallback <==> RStrip(KeepAllowed(title, isAlnum)) in {[], Fallback}
  {
    var kept := RStrip(KeepAllowed(title, isAlnum));
    if kept == [] then
      assert Fallback[|Fallback| - 1] == 'o';
      Fallback
    else
      kept
  }

  /** The safe name holds only allowed characters, whichever branch produced it. */
  lemma SafeFilenameAllowed(title: string, isAlnum: char -> bool)
    requires AcceptsAsciiAlnum(isAlnum)
    ensures AllAllowed(SafeFilename(title, isAlnum), isAlnum)
  {
    var kept := KeepAllowed(title, isAlnum);
    var r := SafeFilename(title, isAlnum);
    if RStrip(kept) == [] {
      assert r == Fallback;
      forall i | 0 <= i < |r| ensures Allowed(r[i], isAlnum) {
        assert 'a' <= r[i] <= 'z';
      }
    } else {
      forall i | 0 <= i < |r| ensures Allowed(r[i], isAlnum) {
        assert r[i] == kept[i];
      }
    }
  }

  /** Sanitising a safe name again changes nothing. */
  lemma SafeFilenameIdempotent(title: string, isAlnum: char -> bool)
    requires AcceptsAsciiAlnum(isAlnum)
    ensures SafeFilename(SafeFilename(title, isAlnum), isAlnum) == SafeFilename(title, isAlnum)
  {
    var r := SafeFilename(title, isAlnum);
    SafeFilenameAllowed(title, isAlnum);
    assert KeepAllowed(r, isAlnum) == r;
    assert RStrip(r) == r;
  }

  /**
   * Line 163: the name in `Content-Disposition`, the safe name followed by
   * the lower-cased extension of the downloaded file.
   */
  function AttachmentName(title: string, fileName: string, isAlnum: char -> bool): string {
    SafeFilename(title, isAlnum) + Lower(SplitExt(fileName))
  }

  /** Everything before the extension is a non-empty run of allowed characters not ending in whitespace. */
  lemma AttachmentNameShape(title: string, fileName: string, isAlnum: char -> bool)
    requires AcceptsAsciiAlnum(isAlnum)
    ensures var name := AttachmentName(title, fileName, isAlnum);
            var ext := Lower(SplitExt(fileName));
            |name| > |ext| && name[|name| - |ext|..] == ext &&
            AllAllowed(name[..|name| - |ext|], isAlnum) &&
            !IsSpace(name[|name| - |ext| - 1])
  {
    var safe := SafeFilename(title, isAlnum);
    var ext := Lower(SplitExt(fileName));
    var name := AttachmentName(title, fileName, isAlnum);
    SafeFilenameAllowed(title, isAlnum);
    assert name[..|name| - |ext|] == safe;
    assert name[|name| - |ext|..] == ext;
  }
}
