/**
 * The classification rule of the downloads organiser: a file's final suffix,
 * lower-cased, picks the destination sub-folder from a fixed table, and a
 * suffix outside the table leaves the file where it is.
 */
module OrganizeDownloads {
  import opened Wrappers
  import opened Text

  /** Destination folders, in the order the table lists them, with their extensions. */
  type Table = seq<(string, seq<string>)>

  const FILE_CATEGORIES: Table := [
    ("\\images", [".jpg", ".jpeg"]),
    ("\\data", [".csv", ".xlsx"]),
    ("\\docs", [".txt", ".doc", ".pdf"]),
    ("\\archive", [".zip"])
  ]

  /** `str.rfind(c)`: the index of the last `c`, or -1 when there is none. */
  function LastIndexOf(s: string, c: char): (i: int)
    ensures -1 <= i < |s|
    ensures i == -1 <==> c !in s
    ensures i >= 0 ==> s[i] == c
    ensures forall j :: i < j < |s| ==> s[j] != c
  {
    if s == [] then -1
    else if s[|s| - 1] == c then |s| - 1
    else LastIndexOf(s[..|s| - 1], c)
  }

  /** `PurePath(name).suffix` for a bare file name: from the last dot on, unless
      that dot is the first or the last character, in which case there is none. */
  function Suffix(name: string): (ext: string)
    ensures ext == "" || (2 <= |ext| < |name| && ext[0] == '.')
  {
    var i := LastIndexOf(name, '.');
    if 0 < i < |name| - 1 then name[i..] else ""
  }

  /** A suffix is a proper tail of the name that starts with its only dot and has
      something after it; there is none exactly when the last dot is missing,
      leading or trailing. */
  lemma SuffixIsFinal(name: string)
    ensures var ext := Suffix(name);
      && (ext == "" <==> (var i := LastIndexOf(name, '.'); i <= 0 || i == |name| - 1))
      && (ext != "" ==>
            && 2 <= |ext| < |name|
            && ext == name[|name| - |ext|..]
            && ext[0] == '.'
            && forall j :: 0 < j < |ext| ==> ext[j] != '.')
  {
  }

  /** The folder of the first table entry whose list holds `ext`. */
  function Lookup(ext: string, table: Table): (folder: Option<string>)
    ensures folder.Some? ==> exists k :: 0 <= k < |table| && table[k].0 == folder.value && ext in table[k].1
  {
    if table == [] then None
    else if ext in table[0].1 then Some(table[0].0)
    else Lookup(ext, table[1..])
  }

  /** There is no folder exactly when no entry lists `ext`; otherwise the folder
      is that of the first entry listing it. */
  lemma {:induction false} LookupSpec(ext: string, table: Table)
    ensures Lookup(ext, table).None? <==> forall k :: 0 <= k < |table| ==> ext !in table[k].1
    ensures Lookup(ext, table).Some? ==>
      exists k :: 0 <= k < |table| && ext in table[k].1 && table[k].0 == Lookup(ext, table).value
        && forall j :: 0 <= j < k ==> ext !in table[j].1
  {
    if table != [] && ext !in table[0].1 {
      var tail := table[1..];
      LookupSpec(ext, tail);
      assert Lookup(ext, table) == Lookup(ext, tail);
      if Lookup(ext, tail).None? {
        forall k | 0 <= k < |table| ensures ext !in table[k].1 {
          if k > 0 {
            assert table[k] == tail[k - 1];
          }
        }
      } else {
        var k :| 0 <= k < |tail| && ext in tail[k].1 && tail[k].0 == Lookup(ext, tail).value
          && forall j :: 0 <= j < k ==> ext !in tail[j].1;
        forall j | 0 <= j < k + 1 ensures ext !in table[j].1 {
          if j > 0 {
            assert table[j] == tail[j - 1];
          }
        }
        assert table[k + 1] == tail[k];
      }
    }
  }

  /** `get_file_category(filename)` */
  function GetFileCategory(filename: string): (folder: Option<string>)
    ensures folder.Some? ==> folder.value in ["\\images", "\\data", "\\docs", "\\archive"]
    ensures Suffix(filename) == "" ==> folder.None?
  {
    FileCategoriesLookup(Lower(Suffix(filename)));
    Lookup(Lower(Suffix(filename)), FILE_CATEGORIES)
  }

  /** Scanning the table entry by entry: the first entry decides when it lists
      `ext`, and the rest of the table decides otherwise. */
  lemma LookupStep(ext: string, table: Table)
    requires table != []
    ensures Lookup(ext, table) == if ext in table[0].1 then Some(table[0].0) else Lookup(ext, table[1..])
  {
  }

  /** Each listed extension goes to its folder, and anything else to no folder. */
  lemma FileCategoriesLookup(ext: string)
    ensures Lookup(ext, FILE_CATEGORIES) ==
      if ext in [".jpg", ".jpeg"] then Some("\\images")
      else if ext in [".csv", ".xlsx"] then Some("\\data")
      else if ext in [".txt", ".doc", ".pdf"] then Some("\\docs")
      else if ext in [".zip"] then Some("\\archive")
      else None
  {
    var t0 := FILE_CATEGORIES;
    var t1 := t0[1..];
    var t2 := t1[1..];
    var t3 := t2[1..];
    LookupStep(ext, t0);
    LookupStep(ext, t1);
    LookupStep(ext, t2);
    LookupStep(ext, t3);
    assert t3[1..] == [];
  }

  lemma CategoryOfEachExtension(filename: string)
    ensures var ext := Lower(Suffix(filename));
      && (ext == ".jpg" || ext == ".jpeg" ==> GetFileCategory(filename) == Some("\\images"))
      && (ext == ".csv" || ext == ".xlsx" ==> GetFileCategory(filename) == Some("\\data"))
      && (ext == ".txt" || ext == ".doc" || ext == ".pdf" ==> GetFileCategory(filename) == Some("\\docs"))
      && (ext == ".zip" ==> GetFileCategory(filename) == Some("\\archive"))
      && (ext !in [".jpg", ".jpeg", ".csv", ".xlsx", ".txt", ".doc", ".pdf", ".zip"] ==>
            GetFileCategory(filename) == None)
  {
    FileCategoriesLookup(Lower(Suffix(filename)));
  }

  lemma LastIndexOfLower(s: string)
    ensures LastIndexOf(Lower(s), '.') == LastIndexOf(s, '.')
  {
    if s != [] {
      assert Lower(s)[..|s| - 1] == Lower(s[..|s| - 1]);
      LastIndexOfLower(s[..|s| - 1]);
    }
  }

  /** Taking the suffix and lower-casing commute, because a dot has no case. */
  lemma SuffixOfLower(s: string)
    ensures Lower(Suffix(s)) == Suffix(Lower(s))
  {
    LastIndexOfLower(s);
    var i := LastIndexOf(s, '.');
    if 0 < i < |s| - 1 {
      assert Lower(s[i..]) == Lower(s)[i..];
    }
  }

  /** Names that differ only in letter case land in the same folder. */
  lemma CategoryIgnoresCase(a: string, b: string)
    requires Lower(a) == Lower(b)
    ensures GetFileCategory(a) == GetFileCategory(b)
  {
    SuffixOfLower(a);
    SuffixOfLower(b);
  }

  /** The suffix starts at the last dot, whenever that dot is neither leading nor trailing. */
  lemma SuffixAt(name: string, i: int)
    requires 0 < i < |name| - 1 && name[i] == '.'
    requires forall j :: i < j < |name| ==> name[j] != '.'
    ensures Suffix(name) == name[i..]
  {
  }

  lemma SuffixNone(name: string)
    requires forall j :: 0 < j < |name| - 1 ==> name[j] != '.'
    ensures Suffix(name) == ""
  {
  }

  /** Only the final suffix counts. */
  lemma DoubleSuffixExample()
    ensures GetFileCategory("a.tar.zip") == Some("\\archive")
  {
    SuffixAt("a.tar.zip", 5);
    assert "a.tar.zip"[5..] == ".zip";
    assert Lower(".zip") == ".zip";
  }

  lemma OtherFinalSuffixExample()
    ensures GetFileCategory("x.zip.bak") == None
  {
    SuffixAt("x.zip.bak", 5);
    assert "x.zip.bak"[5..] == ".bak";
    assert Lower(".bak") == ".bak";
  }

  /** Upper-case suffixes match after lower-casing. */
  lemma UpperCaseSuffixExample()
    ensures GetFileCategory("REPORT.PDF") == Some("\\docs")
  {
    SuffixAt("REPORT.PDF", 6);
    assert "REPORT.PDF"[6..] == ".PDF";
    assert Lower(".PDF") == ".pdf";
  }

  /** A name whose only dot leads it, as a hidden file's does, has no suffix. */
  lemma LeadingDotExample()
    ensures GetFileCategory(".zip") == None
  {
    SuffixNone(".zip");
    assert Lower("") == "";
  }

  /** No extension is listed under two different folders. */
  predicate Unambiguous(table: Table)
  {
    forall p, q, ext :: p in table && q in table && ext in p.1 && ext in q.1 ==> p.0 == q.0
  }

  lemma FileCategoriesUnambiguous()
    ensures Unambiguous(FILE_CATEGORIES)
  {
    var t := FILE_CATEGORIES;
    forall p, q, ext | p in t && q in t && ext in p.1 && ext in q.1 ensures p.0 == q.0 {
      FileCategoriesLookup(ext);
      assert p == t[0] || p == t[1] || p == t[2] || p == t[3];
      assert q == t[0] || q == t[1] || q == t[2] || q == t[3];
    }
  }

  /** In an unambiguous table the answer is the folder listing the extension,
      wherever that entry stands. */
  lemma LookupIsMembership(ext: string, table: Table, folder: string)
    requires Unambiguous(table)
    ensures Lookup(ext, table) == Some(folder) <==> exists p :: p in table && p.0 == folder && ext in p.1
  {
    LookupSpec(ext, table);
    var r := Lookup(ext, table);
    if r.Some? {
      var k :| 0 <= k < |table| && ext in table[k].1 && table[k].0 == r.value;
      assert table[k] in table;
    }
    if exists p :: p in table && p.0 == folder && ext in p.1 {
      var p :| p in table && p.0 == folder && ext in p.1;
      var k :| 0 <= k < |table| && table[k] == p;
      assert r.Some?;
      var j :| 0 <= j < |table| && ext in table[j].1 && table[j].0 == r.value;
      assert table[j] in table;
    }
  }

  /** Scanning the entries of an unambiguous table in another order gives the same answer. */
  lemma LookupIgnoresOrder(ext: string, t1: Table, t2: Table)
    requires Unambiguous(t1) && multiset(t1) == multiset(t2)
    ensures Lookup(ext, t1) == Lookup(ext, t2)
  {
    forall p ensures p in t1 <==> p in t2 {
      assert p in t1 <==> p in multiset(t1);
      assert p in t2 <==> p in multiset(t2);
    }
    assert Unambiguous(t2);
    var r1 := Lookup(ext, t1);
    var r2 := Lookup(ext, t2);
    if r1.Some? {
      LookupIsMembership(ext, t1, r1.value);
      LookupIsMembership(ext, t2, r1.value);
    } else if r2.Some? {
      LookupIsMembership(ext, t2, r2.value);
      LookupIsMembership(ext, t1, r2.value);
    }
  }
}
