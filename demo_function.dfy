/**
 * The small functions of the function-call demonstration: a procedure that
 * returns nothing, tuple swapping, the global/local name resolution rule,
 * default and keyword arguments, and two list builders that keep the order
 * of first occurrence and drop repeats.
 */
module DemoFunction {
  import opened Wrappers

  /** `setValue` only binds and prints a local; its call evaluates to `None`. */
  function SetValue(newValue: int): (r: Option<int>)
    ensures r.None?
  {
    None
  }

  /** `swap(x, y)` returns the pair the other way round. */
  function Swap<A, B>(x: A, y: B): (r: (B, A))
    ensures r.0 == y && r.1 == x
  {
    (y, x)
  }

  lemma SwapInvolution<A, B>(x: A, y: B)
    ensures Swap(Swap(x, y).0, Swap(x, y).1) == (x, y)
  {
  }

  /** The module-level `x`. */
  const X := 5

  /** `func` reads the global `x`. */
  function Func(a: int): int
  {
    a + X
  }

  /** `func2` binds a local `x` of 10, which hides the global. */
  function Func2(a: int): int
  {
    var x := 10;
    a + x
  }

  /** The global is 5 and the local 10, so the two differ by five for every argument. */
  lemma ScopeRule(a: int)
    ensures Func(a) == a + 5 && Func2(a) == a + 10
    ensures Func2(a) == Func(a) + 5
    ensures Func(1) == 6 && Func2(1) == 11
  {
  }

  /** `times(a=10, b=20)` */
  function Times(a: int := 10, b: int := 20): int
  {
    a * b
  }

  lemma TimesDefaults()
    ensures Times() == 200 && Times(5) == 100 && Times(5, 6) == 30
    ensures Times(b := 3) == 30
  {
  }

  /** `connectURI(server, port)` */
  function ConnectUri(server: string, port: string): (url: string)
    ensures |url| == 9 + |server| + |port| && url[..8] == "https://"
  {
    "https://" + server + ":" + port
  }

  /** The server and the port can be read back from the URL at fixed places. */
  lemma ConnectUriParts(server: string, port: string)
    ensures var url := ConnectUri(server, port);
      && |url| == 9 + |server| + |port|
      && url[..8] == "https://"
      && url[8..8 + |server|] == server
      && url[8 + |server|] == ':'
      && url[9 + |server|..] == port
  {
  }

  /** Passing the arguments by keyword, in any order, gives the positional result. */
  lemma ConnectUriCalls()
    ensures ConnectUri("multi.com", "80") == "https://multi.com:80"
    ensures ConnectUri(port := "80", server := "naver.com") == ConnectUri("naver.com", "80")
    ensures ConnectUri(port := "80", server := "naver.com") == "https://naver.com:80"
  {
  }

  predicate Distinct<T(==,!new)>(s: seq<T>)
  {
    forall i, j :: 0 <= i < j < |s| ==> s[i] != s[j]
  }

  /** The position of the first occurrence of `x` in `s`. */
  function FirstIndex<T(==,!new)>(s: seq<T>, x: T): (i: nat)
    requires x in s
    ensures i < |s| && s[i] == x && x !in s[..i]
  {
    if s[0] == x then 0 else 1 + FirstIndex(s[1..], x)
  }

  lemma FirstIndexUnique<T(!new)>(s: seq<T>, x: T, i: nat)
    requires i < |s| && s[i] == x && x !in s[..i]
    ensures FirstIndex(s, x) == i
  {
  }

  /** Appending an element does not move the first occurrence of what was already there. */
  lemma FirstIndexSnoc<T(!new)>(s: seq<T>, y: T, x: T)
    requires x in s
    ensures FirstIndex(s + [y], x) == FirstIndex(s, x)
  {
    var i := FirstIndex(s, x);
    assert (s + [y])[..i] == s[..i];
    FirstIndexUnique(s + [y], x, i);
  }

  lemma FirstIndexOfNew<T(!new)>(s: seq<T>, y: T)
    requires y !in s
    ensures FirstIndex(s + [y], y) == |s|
  {
    assert (s + [y])[..|s|] == s;
    FirstIndexUnique(s + [y], y, |s|);
  }

  /** The elements of `s` in the order of their first occurrence, each once. */
  function Dedup<T(==,!new)>(s: seq<T>): (r: seq<T>)
    ensures forall x :: x in r <==> x in s
    ensures Distinct(r)
  {
    if s == [] then [] else
      var init := Dedup(s[..|s| - 1]);
      if s[|s| - 1] in s[..|s| - 1] then init else init + [s[|s| - 1]]
  }

  lemma DedupSnoc<T(!new)>(s: seq<T>, x: T)
    ensures Dedup(s + [x]) == if x in s then Dedup(s) else Dedup(s) + [x]
  {
    assert (s + [x])[..|s|] == s;
  }

  /** The kept elements come in the order in which they first appear in `s`. */
  lemma {:induction false} DedupKeepsFirstOrder<T(!new)>(s: seq<T>)
    ensures forall i, j :: 0 <= i < j < |Dedup(s)| ==> FirstIndex(s, Dedup(s)[i]) < FirstIndex(s, Dedup(s)[j])
  {
    if s != [] {
      var init := s[..|s| - 1];
      var last := s[|s| - 1];
      assert s == init + [last];
      DedupKeepsFirstOrder(init);
      var r := Dedup(s);
      var r0 := Dedup(init);
      assert r == if last in init then r0 else r0 + [last];
      forall i, j | 0 <= i < j < |r| ensures FirstIndex(s, r[i]) < FirstIndex(s, r[j]) {
        assert r[i] == r0[i];
        FirstIndexSnoc(init, last, r[i]);
        if j < |r0| {
          assert r[j] == r0[j];
          assert FirstIndex(init, r0[i]) < FirstIndex(init, r0[j]);
          FirstIndexSnoc(init, last, r[j]);
        } else {
          assert r[j] == last && last !in init;
          FirstIndexOfNew(init, last);
        }
      }
    }
  }

  /** The elements of `s` that occur in `q`, in their order in `s`, repeats included. */
  function Filter<T(==,!new)>(s: seq<T>, q: seq<T>): (r: seq<T>)
    ensures forall x :: x in r <==> x in s && x in q
  {
    if s == [] then [] else
      Filter(s[..|s| - 1], q) + (if s[|s| - 1] in q then [s[|s| - 1]] else [])
  }

  lemma FilterSnoc<T(!new)>(s: seq<T>, x: T, q: seq<T>)
    ensures Filter(s + [x], q) == Filter(s, q) + (if x in q then [x] else [])
  {
    assert (s + [x])[..|s|] == s;
  }

  /** Filtering keeps the relative order of first occurrences. */
  lemma {:induction false} FilterKeepsFirstOrder<T(!new)>(s: seq<T>, q: seq<T>, x: T, y: T)
    requires x in Filter(s, q) && y in Filter(s, q)
    ensures FirstIndex(Filter(s, q), x) < FirstIndex(Filter(s, q), y) <==> FirstIndex(s, x) < FirstIndex(s, y)
  {
    var init := s[..|s| - 1];
    var last := s[|s| - 1];
    assert s == init + [last];
    var f0 := Filter(init, q);
    if last !in q {
      assert Filter(s, q) == f0;
      FilterKeepsFirstOrder(init, q, x, y);
      FirstIndexSnoc(init, last, x);
      FirstIndexSnoc(init, last, y);
    } else {
      assert Filter(s, q) == f0 + [last];
      if x in f0 && y in f0 {
        FilterKeepsFirstOrder(init, q, x, y);
        FirstIndexSnoc(init, last, x);
        FirstIndexSnoc(init, last, y);
        FirstIndexSnoc(f0, last, x);
        FirstIndexSnoc(f0, last, y);
      } else if x in f0 {
        FirstIndexSnoc(init, last, x);
        FirstIndexSnoc(f0, last, x);
        FirstIndexOfNew(init, y);
        FirstIndexOfNew(f0, y);
      } else if y in f0 {
        FirstIndexSnoc(init, last, y);
        FirstIndexSnoc(f0, last, y);
        FirstIndexOfNew(init, x);
        FirstIndexOfNew(f0, x);
      }
    }
  }

  /** `intersect`: the loop appends each element of `prelist` found in
      `postlist` and not yet in the result. */
  method Intersect<T(==,!new)>(prelist: seq<T>, postlist: seq<T>) returns (result: seq<T>)
    ensures result == Dedup(Filter(prelist, postlist))
  {
    result := [];
    for i := 0 to |prelist|
      invariant result == Dedup(Filter(prelist[..i], postlist))
    {
      var x := prelist[i];
      ghost var kept := Filter(prelist[..i], postlist);
      assert prelist[..i + 1] == prelist[..i] + [x];
      FilterSnoc(prelist[..i], x, postlist);
      if x !in postlist {
        assert Filter(prelist[..i + 1], postlist) == kept;
      } else {
        DedupSnoc(kept, x);
        assert x in result <==> x in kept;
        if x !in result {
          result := result + [x];
        }
      }
    }
    assert prelist[..|prelist|] == prelist;
  }

  /** What `intersect` returns: exactly the common elements, once each, in the
      order of their first occurrence in `prelist`. */
  lemma IntersectSpec<T(!new)>(prelist: seq<T>, postlist: seq<T>)
    ensures var r := Dedup(Filter(prelist, postlist));
      && (forall x :: x in r <==> x in prelist && x in postlist)
      && Distinct(r)
      && forall i, j :: 0 <= i < j < |r| ==> FirstIndex(prelist, r[i]) < FirstIndex(prelist, r[j])
  {
    var f := Filter(prelist, postlist);
    var r := Dedup(f);
    DedupKeepsFirstOrder(f);
    forall i, j | 0 <= i < j < |r| ensures FirstIndex(prelist, r[i]) < FirstIndex(prelist, r[j]) {
      FilterKeepsFirstOrder(prelist, postlist, r[i], r[j]);
    }
  }

  lemma IntersectExample()
    ensures Dedup(Filter("HAM", "SPAM")) == "AM"
  {
    assert "HAM"[..2] == "HA" && "HA"[..1] == "H" && "H"[..0] == "";
    assert Filter("HAM", "SPAM") == "AM";
    assert "AM"[..1] == "A";
  }

  /** All the arguments one after another. */
  function Flatten<T(!new)>(ar: seq<seq<T>>): (r: seq<T>)
    ensures forall x :: x in r <==> exists k :: 0 <= k < |ar| && x in ar[k]
  {
    if ar == [] then [] else Flatten(ar[..|ar| - 1]) + ar[|ar| - 1]
  }

  /** `union(*ar)`: for each argument, for each element, append it unless already present. */
  method Union<T(==,!new)>(ar: seq<seq<T>>) returns (result: seq<T>)
    ensures result == Dedup(Flatten(ar))
  {
    result := [];
    for i := 0 to |ar|
      invariant result == Dedup(Flatten(ar[..i]))
    {
      ghost var before := Flatten(ar[..i]);
      result := AppendNew(result, before, ar[i]);
      assert ar[..i + 1][..i] == ar[..i];
      assert Flatten(ar[..i + 1]) == before + ar[i];
    }
    assert ar[..|ar|] == ar;
  }

  /** The inner loop of `union`: append each element of `item` that is not
      already in the result. */
  method AppendNew<T(==,!new)>(acc: seq<T>, ghost before: seq<T>, item: seq<T>) returns (result: seq<T>)
    requires acc == Dedup(before)
    ensures result == Dedup(before + item)
  {
    result := acc;
    assert before + item[..0] == before;
    for j := 0 to |item|
      invariant result == Dedup(before + item[..j])
    {
      var x := item[j];
      ghost var seen := before + item[..j];
      assert before + item[..j + 1] == seen + [x];
      DedupSnoc(seen, x);
      if x !in result {
        result := result + [x];
      }
    }
    assert item[..|item|] == item;
  }

  /** What `union` returns: every element of every argument exactly once, in the
      order of first appearance across the arguments taken in turn. */
  lemma UnionSpec<T(!new)>(ar: seq<seq<T>>)
    ensures var r := Dedup(Flatten(ar));
      && (forall x :: x in r <==> exists k :: 0 <= k < |ar| && x in ar[k])
      && Distinct(r)
      && forall i, j :: 0 <= i < j < |r| ==> FirstIndex(Flatten(ar), r[i]) < FirstIndex(Flatten(ar), r[j])
  {
    DedupKeepsFirstOrder(Flatten(ar));
  }

  lemma DedupOfDistinct<T(!new)>(s: seq<T>)
    requires Distinct(s)
    ensures Dedup(s) == s
  {
    if s != [] {
      assert s[..|s| - 1] + [s[|s| - 1]] == s;
      DedupOfDistinct(s[..|s| - 1]);
    }
  }

  lemma FlattenExamples()
    ensures Flatten(["HAM", "EGG"]) == "HAMEGG"
    ensures Flatten(["HAM", "EGG", "SPAM"]) == "HAMEGGSPAM"
  {
    assert ["HAM"][..0] == [];
    assert ["HAM", "EGG"][..1] == ["HAM"];
    assert ["HAM", "EGG", "SPAM"][..2] == ["HAM", "EGG"];
  }

  lemma DedupHamEgg()
    ensures Dedup("HAMEGG") == "HAMEG"
  {
    DedupOfDistinct("HAMEG");
    assert "HAMEG" + ['G'] == "HAMEGG";
    DedupSnoc("HAMEG", 'G');
  }

  lemma DedupHamEggSp()
    ensures Dedup("HAMEGGSP") == "HAMEGSP"
  {
    DedupHamEgg();
    assert "HAMEGG" + ['S'] == "HAMEGGS";
    DedupSnoc("HAMEGG", 'S');
    assert Dedup("HAMEGGS") == "HAMEG" + ['S'];
    assert "HAMEGGS" + ['P'] == "HAMEGGSP";
    DedupSnoc("HAMEGGS", 'P');
  }

  lemma DedupHamEggSpam()
    ensures Dedup("HAMEGGSPAM") == "HAMEGSP"
  {
    DedupHamEggSp();
    assert "HAMEGGSP" + ['A'] == "HAMEGGSPA";
    DedupSnoc("HAMEGGSP", 'A');
    assert "HAMEGGSPA" + ['M'] == "HAMEGGSPAM";
    DedupSnoc("HAMEGGSPA", 'M');
  }

  lemma UnionExamples()
    ensures Dedup(Flatten(["HAM", "EGG"])) == "HAMEG"
    ensures Dedup(Flatten(["HAM", "EGG", "SPAM"])) == "HAMEGSP"
  {
    FlattenExamples();
    DedupHamEgg();
    DedupHamEggSpam();
  }
}
