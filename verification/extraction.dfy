/** The two extraction strategies of the post-processing step. Each folds the
    rules of one parsed capa result file into the accumulator of the
    repository being processed. */
module Extraction {
  import opened Strings
  import opened Totals

  /** One entry of a result's `rules` mapping, as far as extraction looks at it. */
  datatype Rule =
    | NoNamespace                      // its `meta` has no `namespace`
    | WithNamespace(namespace: string)
    | NoMeta                           // looking up `meta` raises; the rest of the file is abandoned

  /** A file of a repository's results folder: one that cannot be opened or
      decoded (or has no `rules`), or a decoded capa result. */
  datatype Artifact = Unreadable | Document(rules: seq<Rule>)

  datatype ResultFile = ResultFile(name: string, artifact: Artifact)

  /** The rules handled before the first one that raises. */
  function Processed(rules: seq<Rule>): (p: seq<Rule>)
    ensures |p| <= |rules| && p == rules[..|p|]
    ensures NoMeta !in p
    ensures |p| < |rules| ==> rules[|p|] == NoMeta
    decreases |rules|
  {
    if |rules| == 0 || rules[0] == NoMeta then []
    else [rules[0]] + Processed(rules[1..])
  }

  /** The namespaces of the handled rules, in rule order. */
  function Namespaces(rules: seq<Rule>): (ns: seq<string>)
    ensures |ns| <= |rules|
    decreases |rules|
  {
    if |rules| == 0 || rules[0] == NoMeta then []
    else if rules[0].NoNamespace? then Namespaces(rules[1..])
    else [rules[0].namespace] + Namespaces(rules[1..])
  }

  /** Exactly the namespaces of the namespaced rules handled before the first
      failing one. */
  lemma {:induction false} NamespacesOfProcessed(rules: seq<Rule>)
    ensures forall x :: x in Namespaces(rules) <==> WithNamespace(x) in Processed(rules)
    decreases |rules|
  {
    if |rules| > 0 && rules[0] != NoMeta {
      NamespacesOfProcessed(rules[1..]);
      assert Processed(rules) == [rules[0]] + Processed(rules[1..]);
    }
  }

  /** The category of a namespace: its text before the first `/`, or all of
      it when it holds no `/`. */
  function Category(namespace: string): (category: string)
    ensures '/' !in category
    ensures category <= namespace
    ensures |category| == |namespace| <==> '/' !in namespace
    ensures |category| < |namespace| ==> namespace[|category|] == '/'
  {
    SplitFirst(namespace, '/');
    Split(namespace, '/')[0]
  }

  /** How many of the namespaces have the given category. */
  function CategoryCount(ns: seq<string>, category: string): (n: nat)
    ensures n <= |ns|
    decreases |ns|
  {
    if |ns| == 0 then 0
    else (if Category(ns[0]) == category then 1 else 0) + CategoryCount(ns[1..], category)
  }

  /** Strategy 1: every handled rule with a namespace adds one to the count of
      its category. */
  function AddCategories(acc: map<string, nat>, rules: seq<Rule>): map<string, nat>
    decreases |rules|
  {
    if |rules| == 0 || rules[0] == NoMeta then acc
    else if rules[0].NoNamespace? then AddCategories(acc, rules[1..])
    else AddCategories(Bump(acc, Category(rules[0].namespace)), rules[1..])
  }

  /** Each category's count grows by the number of handled namespaces in that
      category, and a key is added exactly for the categories that occur. */
  lemma {:induction false} AddCategoriesCounts(acc: map<string, nat>, rules: seq<Rule>)
    ensures var r := AddCategories(acc, rules);
      forall category :: Get(r, category) == Get(acc, category) + CategoryCount(Namespaces(rules), category)
    ensures var r := AddCategories(acc, rules);
      forall category :: category in r <==> category in acc || CategoryCount(Namespaces(rules), category) > 0
    decreases |rules|
  {
    if |rules| > 0 && rules[0] != NoMeta {
      if rules[0].NoNamespace? {
        AddCategoriesCounts(acc, rules[1..]);
      } else {
        var bumped := Bump(acc, Category(rules[0].namespace));
        AddCategoriesCounts(bumped, rules[1..]);
        assert Namespaces(rules)[1..] == Namespaces(rules[1..]);
      }
    }
  }

  /** The total of all counts grows by exactly the number of handled
      namespaced rules. */
  lemma {:induction false} AddCategoriesTotal(acc: map<string, nat>, rules: seq<Rule>)
    ensures Total(AddCategories(acc, rules)) == Total(acc) + |Namespaces(rules)|
    decreases |rules|
  {
    if |rules| > 0 && rules[0] != NoMeta {
      if rules[0].NoNamespace? {
        AddCategoriesTotal(acc, rules[1..]);
      } else {
        var bumped := Bump(acc, Category(rules[0].namespace));
        BumpTotal(acc, Category(rules[0].namespace));
        AddCategoriesTotal(bumped, rules[1..]);
      }
    }
  }

  /** Labels never contain `/`. */
  lemma {:induction false} AddCategoriesLabels(acc: map<string, nat>, rules: seq<Rule>)
    requires forall k :: k in acc ==> '/' !in k
    ensures forall k :: k in AddCategories(acc, rules) ==> '/' !in k
    decreases |rules|
  {
    if |rules| > 0 && rules[0] != NoMeta {
      if rules[0].NoNamespace? {
        AddCategoriesLabels(acc, rules[1..]);
      } else {
        AddCategoriesLabels(Bump(acc, Category(rules[0].namespace)), rules[1..]);
      }
    }
  }

  /** A result without namespaced rules changes nothing. */
  lemma {:induction false} AddCategoriesUnchanged(acc: map<string, nat>, rules: seq<Rule>)
    requires Namespaces(rules) == []
    ensures AddCategories(acc, rules) == acc
    decreases |rules|
  {
    if |rules| > 0 && rules[0] != NoMeta {
      AddCategoriesUnchanged(acc, rules[1..]);
    }
  }

  /** The rules of a file that extraction gets to see: none when it cannot be read. */
  function FileRules(file: ResultFile): seq<Rule>
  {
    if file.artifact.Document? then file.artifact.rules else []
  }

  /** Strategy 1 over a repository's files, in listing order, from an empty mapping. */
  function CategoryCounts(files: seq<ResultFile>): map<string, nat>
  {
    CountsFrom(map[], files)
  }

  function CountsFrom(acc: map<string, nat>, files: seq<ResultFile>): map<string, nat>
    decreases |files|
  {
    if |files| == 0 then acc
    else CountsFrom(AddCategories(acc, FileRules(files[0])), files[1..])
  }

  /** The number of handled namespaced rules across the files. */
  function NamespacedCount(files: seq<ResultFile>): nat
    decreases |files|
  {
    if |files| == 0 then 0 else |Namespaces(FileRules(files[0]))| + NamespacedCount(files[1..])
  }

  lemma {:induction false} CountsFromTotal(acc: map<string, nat>, files: seq<ResultFile>)
    ensures Total(CountsFrom(acc, files)) == Total(acc) + NamespacedCount(files)
    decreases |files|
  {
    if |files| > 0 {
      AddCategoriesTotal(acc, FileRules(files[0]));
      CountsFromTotal(AddCategories(acc, FileRules(files[0])), files[1..]);
    }
  }

  lemma {:induction false} CountsFromLabels(acc: map<string, nat>, files: seq<ResultFile>)
    requires forall k :: k in acc ==> '/' !in k
    ensures forall k :: k in CountsFrom(acc, files) ==> '/' !in k
    decreases |files|
  {
    if |files| > 0 {
      AddCategoriesLabels(acc, FileRules(files[0]));
      CountsFromLabels(AddCategories(acc, FileRules(files[0])), files[1..]);
    }
  }

  /** A repository's category counts add up to the number of handled
      namespaced rules in its files, and no category holds a `/`. */
  lemma CategoryCountsTotal(files: seq<ResultFile>)
    ensures Total(CategoryCounts(files)) == NamespacedCount(files)
    ensures forall k :: k in CategoryCounts(files) ==> '/' !in k
  {
    CountsFromTotal(map[], files);
    CountsFromLabels(map[], files);
    var empty: map<string, nat> := map[];
    assert Total(empty) == 0;
  }

  /** The list a file already has, or none. */
  function ListOf(acc: map<string, seq<string>>, name: string): seq<string>
  {
    if name in acc then acc[name] else []
  }

  /** Strategy 2: every handled rule with a namespace appends it to the list of
      the file being processed, creating the list on first use. */
  function AddNamespaces(acc: map<string, seq<string>>, name: string, rules: seq<Rule>): map<string, seq<string>>
    decreases |rules|
  {
    if |rules| == 0 || rules[0] == NoMeta then acc
    else if rules[0].NoNamespace? then AddNamespaces(acc, name, rules[1..])
    else AddNamespaces(acc[name := ListOf(acc, name) + [rules[0].namespace]], name, rules[1..])
  }

  /** The file's list grows by its handled namespaces in rule order, and a file
      with none of them gets no key. */
  lemma {:induction false} AddNamespacesAppends(acc: map<string, seq<string>>, name: string, rules: seq<Rule>)
    ensures AddNamespaces(acc, name, rules)
         == if Namespaces(rules) == [] then acc else acc[name := ListOf(acc, name) + Namespaces(rules)]
    decreases |rules|
  {
    if |rules| > 0 && rules[0] != NoMeta {
      if rules[0].NoNamespace? {
        AddNamespacesAppends(acc, name, rules[1..]);
      } else {
        var a := rules[0].namespace;
        var next := acc[name := ListOf(acc, name) + [a]];
        var tail := Namespaces(rules[1..]);
        AddNamespacesAppends(next, name, rules[1..]);
        assert Namespaces(rules) == [a] + tail;
        if tail == [] {
          assert Namespaces(rules) == [a];
        } else {
          assert ListOf(next, name) + tail == ListOf(acc, name) + Namespaces(rules);
          assert next[name := ListOf(acc, name) + Namespaces(rules)]
              == acc[name := ListOf(acc, name) + Namespaces(rules)];
        }
      }
    }
  }

  /** Strategy 2 over a repository's files, in listing order, from an empty mapping. */
  function CapabilityLists(files: seq<ResultFile>): map<string, seq<string>>
  {
    ListsFrom(map[], files)
  }

  function ListsFrom(acc: map<string, seq<string>>, files: seq<ResultFile>): map<string, seq<string>>
    decreases |files|
  {
    if |files| == 0 then acc
    else ListsFrom(AddNamespaces(acc, files[0].name, FileRules(files[0])), files[1..])
  }

  /** File names in a folder listing are distinct. */
  predicate DistinctNames(files: seq<ResultFile>)
  {
    forall i, j :: 0 <= i < j < |files| ==> files[i].name != files[j].name
  }

  lemma {:induction false} ListsFromSpec(acc: map<string, seq<string>>, files: seq<ResultFile>)
    requires DistinctNames(files)
    requires forall i :: 0 <= i < |files| ==> files[i].name !in acc
    ensures var r := ListsFrom(acc, files);
      && (forall k :: k in acc ==> k in r && r[k] == acc[k])
      && (forall i :: 0 <= i < |files| ==>
            (files[i].name in r <==> Namespaces(FileRules(files[i])) != [])
            && (files[i].name in r ==> r[files[i].name] == Namespaces(FileRules(files[i]))))
      && (forall k :: k in r ==> k in acc || exists i :: 0 <= i < |files| && files[i].name == k)
    decreases |files|
  {
    if |files| > 0 {
      var f := files[0];
      var rest := files[1..];
      var ns := Namespaces(FileRules(f));
      var next := AddNamespaces(acc, f.name, FileRules(f));
      AddNamespacesAppends(acc, f.name, FileRules(f));
      assert ListOf(acc, f.name) == [];
      assert ListOf(acc, f.name) + ns == ns;
      assert next == if ns == [] then acc else acc[f.name := ns];
      assert forall i :: 0 <= i < |rest| ==> rest[i] == files[i + 1];
      assert DistinctNames(rest);
      assert forall i :: 0 <= i < |rest| ==> rest[i].name !in next;
      ListsFromSpec(next, rest);
      var r := ListsFrom(next, rest);
      assert ListsFrom(acc, files) == r;
      assert forall i :: 0 <= i < |rest| ==> rest[i].name != f.name;
      assert f.name in r <==> ns != [];
      forall i | 0 <= i < |files|
        ensures (files[i].name in r <==> Namespaces(FileRules(files[i])) != [])
          && (files[i].name in r ==> r[files[i].name] == Namespaces(FileRules(files[i])))
      {
        if i > 0 {
          assert files[i] == rest[i - 1];
        }
      }
      forall k | k in r
        ensures k in acc || exists i :: 0 <= i < |files| && files[i].name == k
      {
        if k !in next {
          var i :| 0 <= i < |rest| && rest[i].name == k;
          assert files[i + 1].name == k;
        } else if k !in acc {
          assert files[0].name == k;
        }
      }
    }
  }

  /** Strategy 2 over a folder: exactly the files with handled namespaced rules
      get a key, holding those namespaces in rule order. */
  lemma CapabilityListsSpec(files: seq<ResultFile>)
    requires DistinctNames(files)
    ensures var r := CapabilityLists(files);
      && (forall i :: 0 <= i < |files| ==>
            (files[i].name in r <==> Namespaces(FileRules(files[i])) != [])
            && (files[i].name in r ==> r[files[i].name] == Namespaces(FileRules(files[i]))))
      && (forall k :: k in r ==> exists i :: 0 <= i < |files| && files[i].name == k)
  {
    ListsFromSpec(map[], files);
  }

  /** Two results of one repository: one namespaced rule, then the same
      namespace again next to a rule without one. */
  function RepoA(namespace: string): seq<ResultFile>
  {
    [ ResultFile("a.json", Document([WithNamespace(namespace)])),
      ResultFile("b.json", Document([WithNamespace(namespace), NoNamespace])) ]
  }

  /** The category of a namespace whose first `/` is at `i`. */
  lemma CategoryAt(namespace: string, i: nat)
    requires i < |namespace| && namespace[i] == '/'
    requires forall k :: 0 <= k < i ==> namespace[k] != '/'
    ensures Category(namespace) == namespace[..i]
  {
  }

  lemma RepoACategory()
    ensures Category("host-interaction/file") == "host-interaction"
  {
    CategoryAt("host-interaction/file", 16);
  }

  /** Both occurrences count towards the one category; the rule without a
      namespace counts for nothing. */
  lemma RepoACategoryCounts(namespace: string)
    ensures CategoryCounts(RepoA(namespace)) == map[Category(namespace) := 2]
  {
    var c := Category(namespace);
    var files := RepoA(namespace);
    var once := Bump(map[], c);
    assert once == map[c := 1];
    assert AddCategories(map[], FileRules(files[0])) == once by {
      assert AddCategories(map[], FileRules(files[0])) == AddCategories(once, []);
    }
    var twice := Bump(once, c);
    assert twice == map[c := 2];
    var rules := FileRules(files[1]);
    assert AddCategories(once, rules) == twice by {
      assert AddCategories(once, rules) == AddCategories(twice, rules[1..]);
      assert AddCategories(twice, rules[1..]) == AddCategories(twice, []);
    }
    assert CategoryCounts(files) == CountsFrom(once, files[1..]);
    assert CountsFrom(once, files[1..]) == CountsFrom(twice, files[2..]);
  }

  lemma RepoAExample()
    ensures CategoryCounts(RepoA("host-interaction/file")) == map["host-interaction" := 2]
  {
    RepoACategoryCounts("host-interaction/file");
    RepoACategory();
  }

  /** A file whose result has no namespaced rule gets no row at all. */
  lemma CapabilityListsExample()
    ensures CapabilityLists([ResultFile("a.json", Document([WithNamespace("x/y")])),
                             ResultFile("b.json", Document([NoNamespace]))])
         == map["a.json" := ["x/y"]]
  {
    var files := [ResultFile("a.json", Document([WithNamespace("x/y")])), ResultFile("b.json", Document([NoNamespace]))];
    var empty: map<string, seq<string>> := map[];
    var first := AddNamespaces(empty, "a.json", [WithNamespace("x/y")]);
    assert first == map["a.json" := ["x/y"]] by {
      assert ListOf(empty, "a.json") + ["x/y"] == ["x/y"];
      assert first == AddNamespaces(empty["a.json" := ListOf(empty, "a.json") + ["x/y"]], "a.json", []);
    }
    assert AddNamespaces(first, "b.json", [NoNamespace]) == first by {
      assert AddNamespaces(first, "b.json", [NoNamespace]) == AddNamespaces(first, "b.json", []);
    }
    assert CapabilityLists(files) == ListsFrom(first, files[1..]);
    assert ListsFrom(first, files[1..]) == ListsFrom(first, files[2..]);
  }

  /** Files without handled namespaced rules leave both accumulators empty. */
  lemma {:induction false} NothingExtracted(files: seq<ResultFile>)
    requires forall i :: 0 <= i < |files| ==> Namespaces(FileRules(files[i])) == []
    ensures CategoryCounts(files) == map[]
    ensures CapabilityLists(files) == map[]
    decreases |files|
  {
    if |files| > 0 {
      AddCategoriesUnchanged(map[], FileRules(files[0]));
      AddNamespacesAppends(map[], files[0].name, FileRules(files[0]));
      NothingExtracted(files[1..]);
    }
  }
}
