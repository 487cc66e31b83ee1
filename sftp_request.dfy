/**
 * The download request the HTTP handler deserialises, and its two path
 * operations: the remote path (`path`) and the local destination (`dst`).
 */
module SftpRequests {
  import opened Wrappers
  import opened Percent
  import opened StrSplit

  /** A request body: a percent-encoded sftp link and a destination below the media root. */
  datatype SftpRequest = SftpRequest(link: string, destination: string)

  /** The media server's library directory every destination is placed under. */
  const MediaRoot: string := "/var/lib/plexmediaserver/"

  /** The separator the server's `PlexDownloader` is built with (src/main.rs:143). */
  const ServerSplit: string := "roy_rogers/"

  /**
   * The remote path of a request: the link percent-decoded, and of that the
   * piece after the last match of `split`.  Decoding failure makes the source
   * panic, so the link must decode.
   */
  function Path(req: SftpRequest, split: string): (p: string)
    requires Decode(req.link).Ok?
    ensures var d := Decode(req.link).value; |p| <= |d| && p == d[|d| - |p|..]
    ensures |split| > 0 ==> !Contains(p, split)
  {
    var d := Decode(req.link).value;
    var r := Last(Split(d, split));
    LastPieceSuffix(d, split);
    if |split| > 0 then LastPieceFree(d, split); r else r
  }

  /** The local destination: the request's destination appended to the media root, as written. */
  function Dst(req: SftpRequest): (p: string)
    ensures |p| == |MediaRoot| + |req.destination|
    ensures p[..|MediaRoot|] == MediaRoot && p[|MediaRoot|..] == req.destination
  {
    MediaRoot + req.destination
  }

  /** The destination recovered from a local path under the media root. */
  function RelativeToRoot(p: string): (r: Option<string>) {
    if |MediaRoot| <= |p| && p[..|MediaRoot|] == MediaRoot then Some(p[|MediaRoot|..]) else None
  }

  // ---------------------------------------------------------------------
  // Path

  /** The remote path is a suffix of the decoded link. */
  lemma PathIsSuffix(req: SftpRequest, split: string)
    requires Decode(req.link).Ok?
    ensures var p, r := Decode(req.link).value, Path(req, split);
      |r| <= |p| && r == p[|p| - |r|..]
  {
    LastPieceSuffix(Decode(req.link).value, split);
  }

  /** The remote path contains no match of a non-empty separator. */
  lemma PathHasNoSeparator(req: SftpRequest, split: string)
    requires Decode(req.link).Ok? && |split| > 0
    ensures !Contains(Path(req, split), split)
  {
    LastPieceFree(Decode(req.link).value, split);
  }

  /**
   * With a non-empty separator, the remote path is the whole decoded link
   * exactly when the separator does not occur in it.
   */
  lemma PathWholeLinkIff(req: SftpRequest, split: string)
    requires Decode(req.link).Ok? && |split| > 0
    ensures Path(req, split) == Decode(req.link).value <==> !Contains(Decode(req.link).value, split)
  {
    LastPieceWhole(Decode(req.link).value, split);
  }

  /** When the separator occurs, the remote path starts right after a match of it. */
  lemma PathFollowsSeparator(req: SftpRequest, split: string)
    requires Decode(req.link).Ok? && |split| > 0 && Contains(Decode(req.link).value, split)
    ensures var p, r := Decode(req.link).value, Path(req, split);
      |r| + |split| <= |p| && OccursAt(p, split, |p| - |r| - |split|)
  {
    LastPieceAfterMatch(Decode(req.link).value, split);
  }

  /** An empty separator matches at the very end, so the remote path is empty. */
  lemma PathEmptySeparator(req: SftpRequest)
    requires Decode(req.link).Ok?
    ensures Path(req, "") == ""
  {
    LastPieceEmptyPattern(Decode(req.link).value);
  }

  /** The server's separator cannot overlap itself. */
  lemma ServerSplitNoSelfOverlap()
    ensures |ServerSplit| > 0 && NoSelfOverlap(ServerSplit)
  {
    forall d | 0 < d < |ServerSplit|
      ensures ServerSplit[d..] != ServerSplit[..|ServerSplit| - d]
    {
      assert ServerSplit[d..][|ServerSplit| - d - 1] == '/';
      assert ServerSplit[..|ServerSplit| - d][|ServerSplit| - d - 1] == ServerSplit[|ServerSplit| - d - 1];
    }
  }

  /**
   * With the server's separator, the remote path is exactly the text after
   * the separator's last occurrence in the decoded link.
   */
  lemma PathAfterLastServerSplit(req: SftpRequest)
    requires Decode(req.link).Ok? && Contains(Decode(req.link).value, ServerSplit)
    ensures var p, r := Decode(req.link).value, Path(req, ServerSplit);
      |r| + |ServerSplit| <= |p| && OccursAt(p, ServerSplit, |p| - |r| - |ServerSplit|)
      && forall j :: |p| - |r| - |ServerSplit| < j ==> !OccursAt(p, ServerSplit, j)
  {
    ServerSplitNoSelfOverlap();
    LastPieceAfterLastOccurrence(Decode(req.link).value, ServerSplit);
  }

  /** A decoded link ending in the server's separator gives an empty remote path. */
  lemma PathOfLinkEndingInServerSplit(req: SftpRequest)
    requires Decode(req.link).Ok?
    requires var p := Decode(req.link).value;
      |ServerSplit| <= |p| && p[|p| - |ServerSplit|..] == ServerSplit
    ensures Path(req, ServerSplit) == ""
  {
    ServerSplitNoSelfOverlap();
    LastPieceOfTrailingPattern(Decode(req.link).value, ServerSplit);
  }

  /** A link in which no `%` appears is used as it is. */
  lemma PathOfPlainLink(req: SftpRequest, split: string)
    requires '%' !in req.link
    ensures Decode(req.link).Ok? && Path(req, split) == Last(Split(req.link, split))
  {
    DecodePlain(req.link);
  }

  /** Text without `%`, a `%20`, then text that decodes: the space takes the escape's place. */
  lemma DecodeWordThenSpace(a: string, b: string, d: string)
    requires '%' !in a && Decode(b) == Ok(d)
    ensures Decode(a + "%20" + b) == Ok(a + " " + d)
  {
    assert a + "%20" + b == a + ("%20" + b);
    DecodePlainPrefix(a, "%20" + b);
    DecodeSpace(b);
    assert a + (" " + d) == a + " " + d;
  }

  /** Words without `%` joined by `%20` decode to the same words joined by spaces. */
  lemma {:induction false} DecodeSpacedWords(words: seq<string>)
    requires |words| > 0 && forall k :: 0 <= k < |words| ==> '%' !in words[k]
    ensures Decode(Join(words, "%20")) == Ok(Join(words, " "))
    decreases |words|
  {
    if |words| == 1 {
      DecodePlain(words[0]);
    } else {
      DecodeSpacedWords(words[1..]);
      DecodeWordThenSpace(words[0], Join(words[1..], "%20"), Join(words[1..], " "));
    }
  }

  /** The link of the source's unit test `test_clean_path`. */
  const ExampleLink: string :=
    "sftp://example.biz/mnt/mpathm/roy_rogers/files/Blade%20Runner%202049%201080p%20WEB-DL%20H264%20AC3-EVO"

  /** The remote path the unit test expects. */
  const ExamplePath: string := "files/Blade Runner 2049 1080p WEB-DL H264 AC3-EVO"

  /** The unit test's link cut at its `%20` escapes. */
  const ExampleWords: seq<string> :=
    ["sftp://example.biz/mnt/mpathm/" + "roy_rogers/" + "files/Blade", "Runner", "2049", "1080p", "WEB-DL", "H264", "AC3-EVO"]

  /** Joining the example's words with `sep` puts `sep` where the link has its escapes. */
  lemma JoinExampleWords(sep: string)
    ensures Join(ExampleWords, sep) == ExampleWords[0] + sep + ("Runner" + sep + ("2049" + sep
      + ("1080p" + sep + ("WEB-DL" + sep + ("H264" + sep + "AC3-EVO")))))
  {
    var w := ExampleWords;
    assert Join(w[6..], sep) == "AC3-EVO";
    assert w[5..][1..] == w[6..];
    assert Join(w[5..], sep) == "H264" + sep + "AC3-EVO";
    assert w[4..][1..] == w[5..];
    assert Join(w[4..], sep) == "WEB-DL" + sep + Join(w[5..], sep);
    assert w[3..][1..] == w[4..];
    assert Join(w[3..], sep) == "1080p" + sep + Join(w[4..], sep);
    assert w[2..][1..] == w[3..];
    assert Join(w[2..], sep) == "2049" + sep + Join(w[3..], sep);
    assert w[1..][1..] == w[2..];
    assert Join(w[1..], sep) == "Runner" + sep + Join(w[2..], sep);
  }

  /** The unit test's link literal, cut into its words and its `%20` escapes. */
  lemma ExampleLinkPieces()
    ensures
      "sftp://example.biz/mnt/mpathm/roy_rogers/files/Blade%20Runner%202049%201080p%20WEB-DL%20H264%20AC3-EVO"
      == "sftp://example.biz/mnt/mpathm/" + "roy_rogers/" + "files/Blade" + "%20" + "Runner" + "%20"
      + "2049" + "%20" + "1080p" + "%20" + "WEB-DL" + "%20" + "H264" + "%20" + "AC3-EVO"
  {
    assert "sftp://example.biz/mnt/mpathm/" + "roy_rogers/" == "sftp://example.biz/mnt/mpathm/roy_rogers/";
    assert "sftp://example.biz/mnt/mpathm/roy_rogers/" + "files/Blade" == "sftp://example.biz/mnt/mpathm/roy_rogers/files/Blade";
    assert "sftp://example.biz/mnt/mpathm/roy_rogers/files/Blade" + "%20" == "sftp://example.biz/mnt/mpathm/roy_rogers/files/Blade%20";
    assert "sftp://example.biz/mnt/mpathm/roy_rogers/files/Blade%20" + "Runner" == "sftp://example.biz/mnt/mpathm/roy_rogers/files/Blade%20Runner";
    assert "sftp://example.biz/mnt/mpathm/roy_rogers/files/Blade%20Runner" + "%20" == "sftp://example.biz/mnt/mpathm/roy_rogers/files/Blade%20Runner%20";
    assert "sftp://example.biz/mnt/mpathm/roy_rogers/files/Blade%20Runner%20" + "2049" == "sftp://example.biz/mnt/mpathm/roy_rogers/files/Blade%20Runner%202049";
    assert "sftp://example.biz/mnt/mpathm/roy_rogers/files/Blade%20Runner%202049" + "%20" == "sftp://example.biz/mnt/mpathm/roy_rogers/files/Blade%20Runner%202049%20";
    assert "sftp://example.biz/mnt/mpathm/roy_rogers/files/Blade%20Runner%202049%20" + "1080p" == "sftp://example.biz/mnt/mpathm/roy_rogers/files/Blade%20Runner%202049%201080p";
    assert "sftp://example.biz/mnt/mpathm/roy_rogers/files/Blade%20Runner%202049%201080p" + "%20" == "sftp://example.biz/mnt/mpathm/roy_rogers/files/Blade%20Runner%202049%201080p%20";
    assert "sftp://example.biz/mnt/mpathm/roy_rogers/files/Blade%20Runner%202049%201080p%20" + "WEB-DL" == "sftp://example.biz/mnt/mpathm/roy_rogers/files/Blade%20Runner%202049%201080p%20WEB-DL";
    assert "sftp://example.biz/mnt/mpathm/roy_rogers/files/Blade%20Runner%202049%201080p%20WEB-DL" + "%20" == "sftp://example.biz/mnt/mpathm/roy_rogers/files/Blade%20Runner%202049%201080p%20WEB-DL%20";
    assert "sftp://example.biz/mnt/mpathm/roy_rogers/files/Blade%20Runner%202049%201080p%20WEB-DL%20" + "H264" == "sftp://example.biz/mnt/mpathm/roy_rogers/files/Blade%20Runner%202049%201080p%20WEB-DL%20H264";
    assert "sftp://example.biz/mnt/mpathm/roy_rogers/files/Blade%20Runner%202049%201080p%20WEB-DL%20H264" + "%20" == "sftp://example.biz/mnt/mpathm/roy_rogers/files/Blade%20Runner%202049%201080p%20WEB-DL%20H264%20";
    assert "sftp://example.biz/mnt/mpathm/roy_rogers/files/Blade%20Runner%202049%201080p%20WEB-DL%20H264%20" + "AC3-EVO" == "sftp://example.biz/mnt/mpathm/roy_rogers/files/Blade%20Runner%202049%201080p%20WEB-DL%20H264%20AC3-EVO";
  }

  /** The words of the unit test's link, joined by `%20`, regrouped. */
  lemma ExampleWordsJoin()
    ensures Join(ExampleWords, "%20") == "sftp://example.biz/mnt/mpathm/" + "roy_rogers/" + "files/Blade" + "%20" + "Runner" + "%20"
      + "2049" + "%20" + "1080p" + "%20" + "WEB-DL" + "%20" + "H264" + "%20" + "AC3-EVO"
  {
    JoinExampleWords("%20");
  }

  /** The unit test's link is its words joined by `%20`. */
  lemma ExampleLinkJoin()
    ensures ExampleLink == Join(ExampleWords, "%20")
  {
    ExampleLinkPieces();
    ExampleWordsJoin();
  }

  /** The decoded link the unit test expects is its words joined by spaces. */
  lemma ExamplePathJoin()
    ensures "sftp://example.biz/mnt/mpathm/" + "roy_rogers/" + ExamplePath == Join(ExampleWords, " ")
  {
    JoinExampleWords(" ");
  }

  /** No word of the unit test's link holds a `%`. */
  lemma ExampleWordsPlain()
    ensures forall k :: 0 <= k < |ExampleWords| ==> '%' !in ExampleWords[k]
  {
    assert '%' !in ExampleWords[0] by {
      assert ExampleWords[0] == "sftp://example.biz/mnt/mpathm/" + "roy_rogers/" + "files/Blade";
    }
  }

  /** The unit test's expected path has no underscore. */
  lemma ExamplePathNoUnderscore()
    ensures '_' !in ExamplePath
  {
    assert ExamplePath == "files/Blade" + " "
      + ("Runner" + " " + ("2049" + " " + ("1080p" + " " + ("WEB-DL" + " " + ("H264" + " " + "AC3-EVO")))));
  }

  /** The part of the unit test's link before the separator has no underscore. */
  lemma ExampleHostNoUnderscore()
    ensures '_' !in "sftp://example.biz/mnt/mpathm/"
  {
  }

  /** The unit test's link decodes with its six `%20` escapes turned into spaces. */
  lemma DecodeExampleLink()
    ensures Decode(ExampleLink) == Ok("sftp://example.biz/mnt/mpathm/" + "roy_rogers/" + ExamplePath)
  {
    ExampleWordsPlain();
    DecodeSpacedWords(ExampleWords);
    ExampleLinkJoin();
    ExamplePathJoin();
  }

  /**
   * A link that decodes to text, the server's separator, then more text, with
   * no underscore on either side, has the text after the separator as its path.
   */
  lemma PathAroundServerSplit(req: SftpRequest, pre: string, post: string)
    requires Decode(req.link) == Ok(pre + ServerSplit + post)
    requires '_' !in pre && '_' !in post
    ensures Path(req, ServerSplit) == post
  {
    SplitAtUniqueAnchor(pre, ServerSplit, post, 3);
  }

  /** The case of the source's unit test `test_clean_path`. */
  lemma CleanPathExample()
    ensures Decode(ExampleLink).Ok?
    ensures Path(SftpRequest(ExampleLink, "/usr/what"), "roy_rogers/") == ExamplePath
  {
    var req := SftpRequest(ExampleLink, "/usr/what");
    DecodeExampleLink();
    ExamplePathNoUnderscore();
    ExampleHostNoUnderscore();
    PathAroundServerSplit(req, "sftp://example.biz/mnt/mpathm/", ExamplePath);
  }

  // ---------------------------------------------------------------------
  // Dst

  /** The destination path is the media root followed by the request's destination, and only that. */
  lemma DstUnderRoot(req: SftpRequest)
    ensures |Dst(req)| == |MediaRoot| + |req.destination|
    ensures Dst(req)[..|MediaRoot|] == MediaRoot
    ensures RelativeToRoot(Dst(req)) == Some(req.destination)
  {
  }

  /** The link plays no part in the destination. */
  lemma DstIgnoresLink(req: SftpRequest, link: string)
    ensures Dst(req.(link := link)) == Dst(req)
  {
  }

  /** No normalisation: a destination starting with `/` leaves a doubled slash after the root. */
  lemma DstKeepsDoubleSlash(req: SftpRequest)
    requires |req.destination| > 0 && req.destination[0] == '/'
    ensures Dst(req)[|MediaRoot| - 1..|MediaRoot| + 1] == "//"
  {
  }

  /** The destination of the unit test's request. */
  lemma DstExample()
    ensures Dst(SftpRequest("", "/usr/what")) == "/var/lib/plexmediaserver//usr/what"
  {
  }
}
