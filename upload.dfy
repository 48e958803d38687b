/** The resume upload filter and the name a stored upload receives. A file is accepted when
    the lowercased extension of its original name and its mimetype both match the unanchored
    pattern /pdf|doc|docx/; the stored file is named by the upload's millisecond timestamp,
    a '-', and the original name. The timestamp is a parameter. */
module Upload {
  import opened Common
  import opened Text

  /** The size limit of one upload, in bytes. */
  const MaxFileSize: nat := 5 * 1024 * 1024

  /** An upload is within the limit unless it exceeds `MaxFileSize` bytes. */
  predicate WithinLimit(size: nat) { size <= MaxFileSize }

  /** What multer does with one file part: the filter is asked first, from the part's name
      and mimetype; an accepted file is then refused once its data passes the limit. */
  datatype Reception = Stored | Refused | TooLarge

  function Receive(originalName: string, mimetype: string, size: nat): (r: Reception)
    ensures r == Stored <==> FileFilter(originalName, mimetype) && WithinLimit(size)
    ensures r == Refused <==> !FileFilter(originalName, mimetype)
    ensures r == TooLarge <==> FileFilter(originalName, mimetype) && size > MaxFileSize
  {
    if !FileFilter(originalName, mimetype) then Refused
    else if WithinLimit(size) then Stored
    else TooLarge
  }

  /** The limit is inclusive: a file of exactly 5 MiB of an accepted kind is stored, one byte
      more is too large, and a smaller file of a stored kind is stored too. */
  lemma ReceiveBoundary(originalName: string, mimetype: string, size: nat, smaller: nat)
    requires FileFilter(originalName, mimetype)
    ensures Receive(originalName, mimetype, 5242880) == Stored
    ensures Receive(originalName, mimetype, 5242881) == TooLarge
    ensures Receive(originalName, mimetype, size) == Stored && smaller <= size ==>
      Receive(originalName, mimetype, smaller) == Stored
  {
  }

  /** A refused kind is refused whatever its size: the limit never turns a refusal into a
      store. */
  lemma RefusalIgnoresSize(originalName: string, mimetype: string, size: nat, other: nat)
    ensures Receive(originalName, mimetype, size) == Refused <==>
      Receive(originalName, mimetype, other) == Refused
  {
  }

  // ---------------------------------------------------------------- path.extname

  /** The path with its trailing '/' characters removed. */
  function StripTrailingSlashes(p: string): (r: string)
    ensures |r| <= |p| && r == p[..|r|]
    ensures r == [] || r[|r| - 1] != '/'
    ensures forall k :: |r| <= k < |p| ==> p[k] == '/'
  {
    if p != [] && p[|p| - 1] == '/' then StripTrailingSlashes(p[..|p| - 1]) else p
  }

  /** The position of the last `c` in `s`. */
  function LastIndex(s: string, c: char): (r: Option<nat>)
    ensures r.Some? ==> r.value < |s| && s[r.value] == c && c !in s[r.value + 1..]
    ensures r.None? ==> c !in s
  {
    var r := LastBefore(s, c, |s|);
    if r.Some? then
      var t := s[r.value + 1..];
      assert forall k :: 0 <= k < |t| ==> t[k] == s[r.value + 1 + k];
      r
    else r
  }

  /** The position of the last `c` before position `j`. */
  function LastBefore(s: string, c: char, j: nat): (r: Option<nat>)
    requires j <= |s|
    ensures r.Some? ==> r.value < j && s[r.value] == c
    ensures r.Some? ==> forall k :: r.value < k < j ==> s[k] != c
    ensures r.None? ==> forall k :: 0 <= k < j ==> s[k] != c
  {
    if j == 0 then None
    else if s[j - 1] == c then Some(j - 1)
    else LastBefore(s, c, j - 1)
  }

  /** The last path segment, trailing slashes ignored. */
  function Basename(p: string): (b: string)
    ensures '/' !in b
  {
    var q := StripTrailingSlashes(p);
    match LastIndex(q, '/')
    case None => q
    case Some(i) => q[i + 1..]
  }

  /** path.extname on POSIX: from the last '.' of the last segment to its end; empty when
      that segment has no '.', when its only '.' is its first character, and for "..". */
  function ExtName(p: string): (r: string)
    ensures r == "" <==> (forall k :: 0 < k < |Basename(p)| ==> Basename(p)[k] != '.')
                         || Basename(p) == ".."
    ensures r != "" ==> r[0] == '.' && '.' !in r[1..] && '/' !in r
    ensures r != "" ==> |r| < |Basename(p)| && Basename(p)[|Basename(p)| - |r|..] == r
  {
    var b := Basename(p);
    match LastIndex(b, '.')
    case None => ""
    case Some(d) =>
      if d == 0 || b == ".." then "" else
        assert b[d] == '.';
        b[d..]
  }

  // ---------------------------------------------------------------- the filter

  /** /pdf|doc|docx/.test(s). */
  predicate Allowed(s: string) {
    Contains(s, "pdf") || Contains(s, "doc") || Contains(s, "docx")
  }

  /** The "docx" alternative adds nothing: any string containing it contains "doc". */
  lemma DocxIsRedundant(s: string)
    ensures Allowed(s) <==> Contains(s, "pdf") || Contains(s, "doc")
  {
    if Contains(s, "docx") {
      assert "docx" == "doc" + "x";
      ContainsPrefixOfPattern(s, "doc", "x");
    }
  }

  /** fileFilter: the lowercased extension and the mimetype as given must both pass. */
  predicate FileFilter(originalName: string, mimetype: string) {
    Allowed(LowerStr(ExtName(originalName))) && Allowed(mimetype)
  }

  /** `p` cannot occur in `s` when its `k`-th character is missing from every position of
      `s` where it would have to stand. */
  lemma NotContainsAt(s: string, p: string, k: nat)
    requires k < |p| <= |s| && p[k] !in s[k..|s| - |p| + k + 1]
    ensures !Contains(s, p)
  {
    forall i | 0 <= i <= |s| - |p| ensures !OccursAt(s, p, i) {
      assert s[k..|s| - |p| + k + 1][i] == s[i + k];
      assert s[i..i + |p|][k] == s[i + k];
    }
  }

  /** A name "stem.ext" whose extension holds no '.' and which holds no '/' has extension
      ".ext", provided the stem is not empty. */
  lemma ExtNamePlain(stem: string, ext: string)
    requires stem != "" && '/' !in stem && '/' !in ext && '.' !in ext
    requires stem + "." + ext != ".."
    ensures ExtName(stem + "." + ext) == "." + ext
  {
    var p := stem + "." + ext;
    assert p[|p| - 1] != '/' by {
      assert p[|p| - 1] in p;
    }
    assert StripTrailingSlashes(p) == p;
    assert '/' !in p;
    assert Basename(p) == p;
    var d := LastIndex(p, '.');
    assert p[|stem|] == '.';
    assert p[|stem| + 1..] == ext;
    assert d.Some? && d.value == |stem|;
  }

  /** A name "." followed by a dot-free extension (".pdf") has no extension. */
  lemma ExtNameDotfile(ext: string)
    requires '/' !in ext && '.' !in ext
    ensures ExtName("." + ext) == ""
  {
    var p := "." + ext;
    assert p[|p| - 1] in p;
    assert StripTrailingSlashes(p) == p;
    assert '/' !in p;
    assert Basename(p) == p;
    assert p[1..] == ext;
  }

  /** A name without an extension is always rejected. */
  lemma NoExtensionRejected(originalName: string, mimetype: string)
    requires ExtName(originalName) == ""
    ensures !FileFilter(originalName, mimetype)
  {
    ContainsTooLong("", "pdf");
    ContainsTooLong("", "doc");
    ContainsTooLong("", "docx");
  }

  /** A file named ".pdf" is rejected whatever its mimetype. */
  lemma DotfilePdfRejected(mimetype: string)
    ensures !FileFilter(".pdf", mimetype)
  {
    ExtNameDotfile("pdf");
    NoExtensionRejected(".pdf", mimetype);
  }

  /** Lowercasing keeps an occurrence of a lowercase pattern. */
  lemma ContainsLower(s: string, p: string)
    requires Contains(s, p) && NoUpper(p)
    ensures Contains(LowerStr(s), p)
  {
    var i :| 0 <= i <= |s| - |p| && OccursAt(s, p, i);
    forall k | 0 <= k < |p| ensures LowerStr(s)[i + k] == p[k] {
      assert s[i..i + |p|][k] == s[i + k];
    }
    assert LowerStr(s)[i..i + |p|] == p;
    assert OccursAt(LowerStr(s), p, i);
  }

  /** The unanchored test: every extension beginning "doc" passes, ".docm" among them. */
  lemma DocPrefixedExtensionPasses(stem: string, ext: string)
    requires stem != "" && '/' !in stem && '/' !in ext && '.' !in ext
    requires |ext| >= 3 && ext[..3] == "doc"
    ensures Allowed(LowerStr(ExtName(stem + "." + ext)))
  {
    assert |stem + "." + ext| > 2;
    ExtNamePlain(stem, ext);
    DocAfterDot(ext);
  }

  /** ".doc…" still holds "doc" once lowercased. */
  lemma DocAfterDot(ext: string)
    requires |ext| >= 3 && ext[..3] == "doc"
    ensures Contains(LowerStr("." + ext), "doc")
  {
    var dotted := "." + ext;
    assert dotted[1..4] == "doc";
    assert OccursAt(dotted, "doc", 1);
    assert NoUpper("doc") by {
      forall k | 0 <= k < 3 ensures !IsUpper("doc"[k]) {
        if k == 0 {} else if k == 1 {} else {}
      }
    }
    ContainsLower(dotted, "doc");
  }

  lemma DocmExtensionPasses()
    ensures Allowed(LowerStr(ExtName("cv.docm")))
  {
    assert "cv.docm" == "cv" + "." + "docm";
    DocPrefixedExtensionPasses("cv", "docm");
  }

  /** The mimetype Word 97-2003 documents are sent with. */
  const MsWord: string := "application/msword"

  lemma MsWordNotAllowed()
    ensures !Allowed(MsWord)
  {
    NotContainsAt(MsWord, "pdf", 2);
    NotContainsAt(MsWord, "doc", 0);
    NotContainsAt(MsWord, "docx", 0);
  }

  /** As written, a .doc file sent with its mimetype is rejected whatever its name. */
  lemma DocUploadRejected(originalName: string)
    ensures !FileFilter(originalName, MsWord)
  {
    MsWordNotAllowed();
  }

  /** The filter the error message describes (PDF, DOC, DOCX): the Word 97-2003 mimetype is
      recognised as well. */
  predicate FileFilterIntended(originalName: string, mimetype: string) {
    Allowed(LowerStr(ExtName(originalName))) && (Allowed(mimetype) || mimetype == MsWord)
  }

  /** The intended filter accepts a .doc upload and agrees with the written one on every
      other mimetype. */
  lemma IntendedFilterAcceptsDoc(stem: string, originalName: string, mimetype: string)
    requires stem != "" && '/' !in stem
    ensures FileFilterIntended(stem + ".doc", MsWord)
    ensures mimetype != MsWord ==>
      (FileFilterIntended(originalName, mimetype) <==> FileFilter(originalName, mimetype))
  {
    assert stem + ".doc" == stem + "." + "doc";
    DocPrefixedExtensionPasses(stem, "doc");
  }

  /** The mimetype is not lowercased: "APPLICATION/PDF" is rejected. */
  lemma UppercaseMimetypeRejected(originalName: string)
    ensures !FileFilter(originalName, "APPLICATION/PDF")
  {
    NotContainsAt("APPLICATION/PDF", "pdf", 0);
    NotContainsAt("APPLICATION/PDF", "doc", 0);
    NotContainsAt("APPLICATION/PDF", "docx", 0);
  }

  // ---------------------------------------------------------------- the stored name

  /** `${Date.now()}-${file.originalname}`. */
  function StoredName(timestamp: nat, originalName: string): (r: string)
    ensures |r| == |Decimal(timestamp)| + 1 + |originalName|
    ensures r[|r| - |originalName|..] == originalName
    ensures r[..|Decimal(timestamp)|] == Decimal(timestamp) && r[|Decimal(timestamp)|] == '-'
  {
    Decimal(timestamp) + "-" + originalName
  }

  /** The first '-' of a stored name ends the timestamp: a decimal numeral holds no '-'. */
  lemma FirstDash(timestamp: nat, originalName: string)
    ensures forall k :: 0 <= k < |Decimal(timestamp)| ==> StoredName(timestamp, originalName)[k] != '-'
  {
    var d := Decimal(timestamp);
    forall k | 0 <= k < |d| ensures StoredName(timestamp, originalName)[k] != '-' {
      assert StoredName(timestamp, originalName)[k] == d[k];
    }
  }

  /** The timestamp and the original name can be read back from a stored name. */
  lemma StoredNameInjective(t1: nat, n1: string, t2: nat, n2: string)
    requires StoredName(t1, n1) == StoredName(t2, n2)
    ensures t1 == t2 && n1 == n2
  {
    var d1, d2 := Decimal(t1), Decimal(t2);
    var s := StoredName(t1, n1);
    FirstDash(t1, n1);
    FirstDash(t2, n2);
    assert |d1| == |d2|;
    assert d1 == s[..|d1|] == d2;
    DecimalInjective(t1, t2);
    assert n1 == s[|d1| + 1..] == n2;
  }
}
