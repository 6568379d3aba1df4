/** The type classifier of `CloudStorageApp.getFileType`: the text after the
    last '.' of a file name, lower-cased, looked up in a fixed extension table;
    anything the table does not list is 'other'. */
module Classifier {
  import opened Strings

  datatype FileType = Image | Pdf | Document | Text | Audio | Video | Other

  /** The string the application stores in a record's `type` field and
      compares with the filter selection. */
  function TypeName(t: FileType): string
  {
    match t
    case Image => "image"
    case Pdf => "pdf"
    case Document => "document"
    case Text => "text"
    case Audio => "audio"
    case Video => "video"
    case Other => "other"
  }

  /** Different types have different names. */
  lemma TypeNameInjective(t: FileType, u: FileType)
    ensures TypeName(t) == TypeName(u) <==> t == u
  {
  }

  /** `fileName.split('.').pop()`: the longest suffix without a '.', which
      is the whole name when it holds no '.'. */
  function Extension(fileName: string): string
  {
    if fileName == [] || fileName[|fileName| - 1] == '.' then []
    else Extension(fileName[..|fileName| - 1]) + [fileName[|fileName| - 1]]
  }

  /** The extension is a suffix of the name, holds no '.', and is either the
      whole name or preceded by a '.'. */
  lemma {:induction false} ExtensionIsLastSegment(fileName: string)
    ensures var ext := Extension(fileName);
      && |ext| <= |fileName| && ext == fileName[|fileName| - |ext|..]
      && '.' !in ext
      && (|ext| < |fileName| ==> fileName[|fileName| - |ext| - 1] == '.')
    decreases |fileName|
  {
    if fileName != [] && fileName[|fileName| - 1] != '.' {
      var n, c := |fileName|, fileName[|fileName| - 1];
      var init := fileName[..n - 1];
      ExtensionIsLastSegment(init);
      var e := Extension(init);
      assert Extension(fileName) == e + [c];
      assert init[n - 1 - |e|..] + [c] == fileName[n - |e| - 1..];
      assert forall x :: x in e + [c] ==> x in e || x == c;
      if |e| + 1 < n {
        assert fileName[n - |e| - 2] == init[n - 1 - |e| - 1];
      }
    }
  }

  /** A name without any '.' is its own extension. */
  lemma {:induction false} ExtensionWithoutDot(fileName: string)
    requires '.' !in fileName
    ensures Extension(fileName) == fileName
    decreases |fileName|
  {
    if fileName != [] {
      var init := fileName[..|fileName| - 1];
      assert forall c :: c in init ==> c in fileName;
      ExtensionWithoutDot(init);
      assert init + [fileName[|fileName| - 1]] == fileName;
    }
  }

  /** The own entries of the extension table. */
  const TypeMap: map<string, FileType> := map[
    "jpg" := Image, "jpeg" := Image, "png" := Image, "gif" := Image, "webp" := Image,
    "pdf" := Pdf, "doc" := Document, "docx" := Document, "ppt" := Document, "pptx" := Document,
    "txt" := Text, "md" := Text, "csv" := Text,
    "mp3" := Audio, "wav" := Audio, "flac" := Audio,
    "mp4" := Video, "avi" := Video, "mov" := Video
  ]

  /** The classifier as the application intends it: a lookup among the
      table's own entries, falling back to `Other`. */
  function GetFileType(fileName: string): FileType
  {
    var ext := Lower(Extension(fileName));
    if ext in TypeMap then TypeMap[ext] else Other
  }

  /** `low` has `k` as its last '.'-separated segment: it is `k` itself, or
      it ends in "." followed by `k`. */
  predicate EndsInSegment(low: string, k: string)
  {
    low == k || (|low| > |k| && low[|low| - |k| - 1..] == "." + k)
  }

  /** For a segment without a '.', ending in it is having it as extension. */
  lemma SegmentIsExtension(s: string, k: string)
    requires '.' !in k
    ensures EndsInSegment(s, k) <==> Extension(s) == k
  {
    if s == k {
      ExtensionWithoutDot(s);
    } else if |s| > |k| && s[|s| - |k| - 1..] == "." + k {
      var stem := s[..|s| - |k| - 1];
      assert s == stem + "." + k;
      ExtensionAfterLastDot(stem, k);
    }
    if Extension(s) == k {
      ExtensionIsLastSegment(s);
      if |k| < |s| {
        assert s[|s| - |k| - 1..] == [s[|s| - |k| - 1]] + s[|s| - |k|..];
      }
    }
  }

  /** No extension in the table holds a '.'. */
  lemma TableKeysHaveNoDot()
    ensures forall k :: k in TypeMap ==> '.' !in k
  {
    forall k | k in TypeMap
      ensures '.' !in k
    {
      assert |k| <= 4 && forall i :: 0 <= i < |k| ==> 'a' <= k[i] <= 'z' || '0' <= k[i] <= '9';
    }
  }

  /** Every extension in the table is in lower case. */
  lemma TableKeysAreLowerCase()
    ensures forall k :: k in TypeMap ==> IsLowerCase(k)
  {
  }

  /** In a table whose keys hold no '.', the keys that end a text as a
      segment are exactly its extension, when the table has it. */
  lemma SegmentKeys<V>(low: string, table: map<string, V>)
    requires forall k :: k in table ==> '.' !in k
    ensures forall k :: k in table && EndsInSegment(low, k) ==> k == Extension(low)
    ensures Extension(low) in table ==> EndsInSegment(low, Extension(low))
  {
    forall k | k in table && EndsInSegment(low, k)
      ensures k == Extension(low)
    {
      SegmentIsExtension(low, k);
    }
    if Extension(low) in table {
      SegmentIsExtension(low, Extension(low));
    }
  }

  /** No extension in the table is classified as `Other`. */
  lemma TableHasNoOther()
    ensures Other !in TypeMap.Values
  {
    forall k | k in TypeMap
      ensures TypeMap[k] != Other
    {
    }
  }

  /** A lookup of the extension in any table whose keys hold no '.', with a
      fallback the table never yields: a text whose last segment is a key
      gets that key's entry, and the fallback comes out exactly when no key
      is its last segment. */
  lemma LookupBySegment<V>(low: string, table: map<string, V>, fallback: V)
    requires forall k :: k in table ==> '.' !in k
    requires fallback !in table.Values
    ensures var r := if Extension(low) in table then table[Extension(low)] else fallback;
      && (forall k :: k in table && EndsInSegment(low, k) ==> r == table[k])
      && (r == fallback <==> forall k :: k in table ==> !EndsInSegment(low, k))
  {
    SegmentKeys(low, table);
  }

  /** The classification read off the lower-cased name: a name whose last
      segment is a table key gets that key's type, and a name is `Other`
      exactly when no table key is its last segment. */
  lemma GetFileTypeBySuffix(fileName: string)
    ensures forall k :: k in TypeMap && EndsInSegment(Lower(fileName), k) ==> GetFileType(fileName) == TypeMap[k]
    ensures GetFileType(fileName) == Other <==> forall k :: k in TypeMap ==> !EndsInSegment(Lower(fileName), k)
  {
    var low := Lower(fileName);
    ExtensionOfLower(fileName);
    TableKeysHaveNoDot();
    TableHasNoOther();
    LookupBySegment(low, TypeMap, Other);
  }

  /** Everything up to the last '.' is ignored: "x.y.pdf" is classified by
      "pdf" alone. */
  lemma {:induction false} ExtensionAfterLastDot(stem: string, ext: string)
    requires '.' !in ext
    ensures Extension(stem + "." + ext) == ext
    decreases |ext|
  {
    var s := stem + "." + ext;
    if ext != [] {
      var shorter := ext[..|ext| - 1];
      assert s[..|s| - 1] == stem + "." + shorter;
      ExtensionAfterLastDot(stem, shorter);
      assert shorter + [ext[|ext| - 1]] == ext;
    }
  }

  /** Lower-casing commutes with taking the extension, since it never
      creates or removes a '.'. */
  lemma {:induction false} ExtensionOfLower(fileName: string)
    ensures Extension(Lower(fileName)) == Lower(Extension(fileName))
    decreases |fileName|
  {
    if fileName != [] {
      var n := |fileName|;
      var init, c := fileName[..n - 1], fileName[n - 1];
      var low := Lower(fileName);
      assert low == Lower(init) + [LowerChar(c)];
      assert low[..n - 1] == Lower(init) && low[n - 1] == LowerChar(c);
      ExtensionOfLower(init);
      if c != '.' {
        var e := Extension(init);
        assert LowerChar(c) != '.';
        assert (e + [c])[..|e|] == e;
        assert Lower(e + [c]) == Lower(e) + [LowerChar(c)];
      }
    }
  }

  /** The classification does not depend on the letter case of the name. */
  lemma ClassifyIgnoresCase(fileName: string)
    ensures GetFileType(Lower(fileName)) == GetFileType(fileName)
  {
    var ext := Extension(fileName);
    ExtensionOfLower(fileName);
    LowerSpec(ext);
    LowerSpec(Lower(ext));
  }

  /** The classification of a name whose lower-cased extension is known. */
  lemma ClassifyByExtension(fileName: string, ext: string)
    requires Lower(Extension(fileName)) == ext
    ensures GetFileType(fileName) == if ext in TypeMap then TypeMap[ext] else Other
  {
  }

  /** A name ending in a lower-case extension from the table gets that
      extension's type, whatever comes before the last '.'. */
  lemma ClassifyKnownExtension(stem: string, ext: string)
    requires ext in TypeMap
    ensures GetFileType(stem + "." + ext) == TypeMap[ext]
  {
    TableKeysHaveNoDot();
    TableKeysAreLowerCase();
    ExtensionAfterLastDot(stem, ext);
    LowerSpec(ext);
    ClassifyByExtension(stem + "." + ext, ext);
  }

  /** Upper-case extensions are recognised: "a.JPG" is an image. */
  lemma ClassifyUpperCaseJpg(stem: string)
    ensures GetFileType(stem + ".JPG") == Image
  {
    var name := stem + ".JPG";
    ExtensionAfterLastDot(stem, "JPG");
    assert stem + "." + "JPG" == name;
    assert Lower("JPG") == "jpg";
    ClassifyByExtension(name, "jpg");
  }

  /** Only the text after the last '.' counts: "x.y.pdf" is a pdf. */
  lemma ClassifyLastDot(stem: string)
    ensures GetFileType(stem + ".pdf") == Pdf
  {
    ClassifyKnownExtension(stem, "pdf");
    assert stem + "." + "pdf" == stem + ".pdf";
  }

  /** A name without a '.' is looked up whole: "noext" is 'other', while a
      file named just "mp3" is audio. */
  lemma ClassifyNoDot(fileName: string)
    requires '.' !in fileName
    ensures var key := Lower(fileName);
      GetFileType(fileName) == if key in TypeMap then TypeMap[key] else Other
  {
    ExtensionWithoutDot(fileName);
  }

  // ---------------------------------------------------------------------
  // The lookup as the source writes it: `typeMap[extension] || 'other'` on an
  // object literal, whose property lookup also finds the members every object
  // inherits. Of these only `constructor` and `__proto__` are spelled in lower
  // case, so only they can be reached after `toLowerCase()`; both are truthy
  // (the `Object` function and `Object.prototype`), so they are returned
  // instead of 'other'.

  const InheritedKeys: set<string> := {"constructor", "__proto__"}

  /** What `typeMap[extension] || 'other'` evaluates to. */
  datatype TypeValue = Named(t: FileType) | InheritedMember(key: string)

  function GetFileTypeAsWritten(fileName: string): TypeValue
  {
    var ext := Lower(Extension(fileName));
    if ext in TypeMap then Named(TypeMap[ext])
    else if ext in InheritedKeys then InheritedMember(ext)
    else Named(Other)
  }

  /** Away from the two inherited keys the written lookup and the intended
      one agree; on them the written one yields no type name at all. */
  lemma AsWrittenAgreesOffInheritedKeys(fileName: string)
    ensures Lower(Extension(fileName)) !in InheritedKeys
      ==> GetFileTypeAsWritten(fileName) == Named(GetFileType(fileName))
    ensures Lower(Extension(fileName)) in InheritedKeys
      ==> GetFileTypeAsWritten(fileName).InheritedMember? && GetFileType(fileName) == Other
  {
    assert "constructor" !in TypeMap && "__proto__" !in TypeMap;
  }

  lemma LowerOfConstructor()
    ensures Lower("constructor") == "constructor"
  {
    LowerSpec("constructor");
  }

  /** Any name ending in ".constructor", "report.constructor" say, is
      classified as the `Object` function instead of 'other'. */
  lemma ConstructorExtensionCounterexample(stem: string)
    ensures GetFileTypeAsWritten(stem + ".constructor") == InheritedMember("constructor")
    ensures GetFileType(stem + ".constructor") == Other
  {
    var name := stem + ".constructor";
    ExtensionAfterLastDot(stem, "constructor");
    assert stem + "." + "constructor" == name;
    LowerOfConstructor();
    ClassifyByExtension(name, "constructor");
  }
}
