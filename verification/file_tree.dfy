/** A cloned repository as a tree of named files and directories, and the
    ways the analyzer walks it: `Path.rglob('*')`, `Path.suffix`, and
    `sorted(path.iterdir())`.

    The order of a directory's entries stands for the order the file system
    lists them in; it is the order every walk below follows. */
module FileTree {
  import opened Strings

  /** A file (its name, its size in bytes, its text) or a directory (its name
      and its entries). */
  datatype Node = File(name: string, size: nat, text: string) | Dir(name: string, children: seq<Node>)

  /** The number of nodes in a subtree, the node itself included. */
  function Size(n: Node): (k: nat)
    ensures k >= 1
  {
    if n.File? then 1 else 1 + SizeAll(n.children)
  }

  /** The number of nodes in a list of subtrees. */
  function SizeAll(ns: seq<Node>): nat {
    if ns == [] then 0 else Size(ns[0]) + SizeAll(ns[1..])
  }

  /** A list of subtrees is larger than its tail and than the entries of its
      first directory. */
  lemma SizeDrop(ns: seq<Node>)
    requires ns != []
    ensures SizeAll(ns[1..]) < SizeAll(ns)
    ensures ns[0].Dir? ==> SizeAll(ns[0].children) < SizeAll(ns)
  {
  }

  // =====================================================================
  // rglob
  // =====================================================================

  /** One path `rglob` yields: its parts below the walked directory, and the node. */
  datatype Item = Item(parts: seq<string>, node: Node)

  /** The entries `ns` of the directory at `prefix`, as paths. */
  function Listed(ns: seq<Node>, prefix: seq<string>): (r: seq<Item>)
    ensures |r| == |ns|
    ensures forall i :: 0 <= i < |ns| ==> r[i] == Item(prefix + [ns[i].name], ns[i])
  {
    seq(|ns|, i requires 0 <= i < |ns| => Item(prefix + [ns[i].name], ns[i]))
  }

  /** `Path.rglob('*')` below the directory at `prefix` whose entries are `ns`:
      the entries themselves, then, directory by directory, everything below
      each one (the order of CPython 3.11 and earlier). */
  function RGlob(ns: seq<Node>, prefix: seq<string>): seq<Item>
    decreases SizeAll(ns), 1
  {
    Listed(ns, prefix) + Below(ns, prefix)
  }

  /** Everything below the directories among `ns`, one directory after the other. */
  function Below(ns: seq<Node>, prefix: seq<string>): seq<Item>
    decreases SizeAll(ns), 0
  {
    if ns == [] then []
    else
      SizeDrop(ns);
      (if ns[0].Dir? then RGlob(ns[0].children, prefix + [ns[0].name]) else [])
      + Below(ns[1..], prefix)
  }

  /** Every path `rglob` yields below `prefix` starts with `prefix`. */
  lemma {:induction false} RGlobUnder(ns: seq<Node>, prefix: seq<string>)
    ensures forall i :: 0 <= i < |RGlob(ns, prefix)| ==> prefix <= RGlob(ns, prefix)[i].parts
    decreases SizeAll(ns), 1
  {
    BelowUnder(ns, prefix);
    var l: seq<Item>, b: seq<Item> := Listed(ns, prefix), Below(ns, prefix);
    var r := l + b;
    forall i | 0 <= i < |r| ensures prefix <= r[i].parts {
      if i >= |l| {
        assert r[i] == b[i - |l|];
      }
    }
  }

  lemma {:induction false} BelowUnder(ns: seq<Node>, prefix: seq<string>)
    ensures forall i :: 0 <= i < |Below(ns, prefix)| ==> prefix <= Below(ns, prefix)[i].parts
    decreases SizeAll(ns), 0
  {
    if ns != [] {
      SizeDrop(ns);
      var here: seq<Item> := if ns[0].Dir? then RGlob(ns[0].children, prefix + [ns[0].name]) else [];
      if ns[0].Dir? {
        RGlobUnder(ns[0].children, prefix + [ns[0].name]);
      }
      BelowUnder(ns[1..], prefix);
      var rest := Below(ns[1..], prefix);
      var r := here + rest;
      forall i | 0 <= i < |r| ensures prefix <= r[i].parts {
        if i < |here| {
          assert r[i] == here[i];
          assert prefix <= prefix + [ns[0].name];
        } else {
          assert r[i] == rest[i - |here|];
        }
      }
    }
  }

  /** `rglob` yields every node of the tree exactly once. */
  lemma {:induction false} RGlobCount(ns: seq<Node>, prefix: seq<string>)
    ensures |RGlob(ns, prefix)| == SizeAll(ns)
    decreases SizeAll(ns), 1
  {
    BelowCount(ns, prefix);
  }

  lemma {:induction false} BelowCount(ns: seq<Node>, prefix: seq<string>)
    ensures |Below(ns, prefix)| == SizeAll(ns) - |ns|
    decreases SizeAll(ns), 0
  {
    if ns != [] {
      SizeDrop(ns);
      if ns[0].Dir? {
        RGlobCount(ns[0].children, prefix + [ns[0].name]);
      }
      BelowCount(ns[1..], prefix);
    }
  }

  // =====================================================================
  // Paths under `.git`
  // =====================================================================

  /** `'.git' in item.parts`: the item is `.git` or lies below it. */
  predicate InGit(it: Item) { ".git" in it.parts }

  /** The number of items not in `.git`. */
  function CountShown(items: seq<Item>): nat {
    if items == [] then 0
    else CountShown(items[..|items| - 1]) + (if InGit(items[|items| - 1]) then 0 else 1)
  }

  lemma {:induction false} CountShownConcat(a: seq<Item>, b: seq<Item>)
    ensures CountShown(a + b) == CountShown(a) + CountShown(b)
    decreases |b|
  {
    if b == [] {
      assert a + b == a;
    } else {
      CountShownConcat(a, b[..|b| - 1]);
      assert (a + b)[..|a + b| - 1] == a + b[..|b| - 1];
    }
  }

  /** The nodes not named `.git`, counting into every directory not named `.git`. */
  function Visible(ns: seq<Node>): nat
    decreases SizeAll(ns), 0
  {
    if ns == [] then 0
    else
      SizeDrop(ns);
      (if ns[0].name == ".git" then 0
       else 1 + (if ns[0].Dir? then Visible(ns[0].children) else 0))
      + Visible(ns[1..])
  }

  /** The entries not named `.git`. */
  function NotGit(ns: seq<Node>): nat {
    if ns == [] then 0 else (if ns[0].name == ".git" then 0 else 1) + NotGit(ns[1..])
  }

  /** The nodes below the directories of `ns` that are not named `.git`, counting
      into every directory not named `.git`. */
  function VisibleBelow(ns: seq<Node>): nat
    decreases SizeAll(ns), 1
  {
    if ns == [] then 0
    else
      SizeDrop(ns);
      (if ns[0].name != ".git" && ns[0].Dir? then Visible(ns[0].children) else 0)
      + VisibleBelow(ns[1..])
  }

  lemma {:induction false} VisibleSplit(ns: seq<Node>)
    ensures Visible(ns) == NotGit(ns) + VisibleBelow(ns)
  {
    if ns != [] {
      VisibleSplit(ns[1..]);
    }
  }

  lemma {:induction false} ListedShown(ns: seq<Node>, prefix: seq<string>)
    requires ".git" !in prefix
    ensures CountShown(Listed(ns, prefix)) == NotGit(ns)
  {
    if ns != [] {
      var l := Listed(ns, prefix);
      ListedShown(ns[1..], prefix);
      assert l == [l[0]] + Listed(ns[1..], prefix);
      CountShownConcat([l[0]], Listed(ns[1..], prefix));
      assert [l[0]][..0] == [];
      assert ".git" in l[0].parts <==> ns[0].name == ".git";
    }
  }

  /** Below a `.git` directory every item is in `.git`. */
  lemma {:induction false} HiddenRGlob(ns: seq<Node>, prefix: seq<string>)
    requires ".git" in prefix
    ensures CountShown(RGlob(ns, prefix)) == 0
    decreases SizeAll(ns), 1
  {
    HiddenListed(ns, prefix);
    HiddenBelow(ns, prefix);
    CountShownConcat(Listed(ns, prefix), Below(ns, prefix));
  }

  lemma {:induction false} HiddenListed(ns: seq<Node>, prefix: seq<string>)
    requires ".git" in prefix
    ensures CountShown(Listed(ns, prefix)) == 0
  {
    if ns != [] {
      var l := Listed(ns, prefix);
      HiddenListed(ns[..|ns| - 1], prefix);
      assert l[..|l| - 1] == Listed(ns[..|ns| - 1], prefix);
      assert ".git" in l[|l| - 1].parts;
    }
  }

  lemma {:induction false} HiddenBelow(ns: seq<Node>, prefix: seq<string>)
    requires ".git" in prefix
    ensures CountShown(Below(ns, prefix)) == 0
    decreases SizeAll(ns), 0
  {
    if ns != [] {
      SizeDrop(ns);
      var here := if ns[0].Dir? then RGlob(ns[0].children, prefix + [ns[0].name]) else [];
      if ns[0].Dir? {
        HiddenRGlob(ns[0].children, prefix + [ns[0].name]);
      }
      HiddenBelow(ns[1..], prefix);
      CountShownConcat(here, Below(ns[1..], prefix));
    }
  }

  lemma {:induction false} BelowShown(ns: seq<Node>, prefix: seq<string>)
    requires ".git" !in prefix
    ensures CountShown(Below(ns, prefix)) == VisibleBelow(ns)
    decreases SizeAll(ns), 0
  {
    if ns != [] {
      SizeDrop(ns);
      var here := if ns[0].Dir? then RGlob(ns[0].children, prefix + [ns[0].name]) else [];
      if ns[0].Dir? {
        if ns[0].name == ".git" {
          HiddenRGlob(ns[0].children, prefix + [ns[0].name]);
        } else {
          RGlobShown(ns[0].children, prefix + [ns[0].name]);
        }
      }
      BelowShown(ns[1..], prefix);
      CountShownConcat(here, Below(ns[1..], prefix));
    }
  }

  /** Outside `.git`, the items `rglob` yields that are not in `.git` are the
      visible nodes: each once. */
  lemma {:induction false} RGlobShown(ns: seq<Node>, prefix: seq<string>)
    requires ".git" !in prefix
    ensures CountShown(RGlob(ns, prefix)) == Visible(ns)
    decreases SizeAll(ns), 1
  {
    ListedShown(ns, prefix);
    BelowShown(ns, prefix);
    CountShownConcat(Listed(ns, prefix), Below(ns, prefix));
    VisibleSplit(ns);
  }

  // =====================================================================
  // Suffixes
  // =====================================================================

  /** Index of the last `.` in `s`, or `|s|` when there is none. */
  function LastDot(s: string): (i: nat)
    ensures i <= |s|
    ensures i < |s| ==> s[i] == '.'
    ensures forall k :: i < k < |s| ==> s[k] != '.'
    ensures i == |s| ==> '.' !in s
  {
    if s == [] then 0
    else if s[|s| - 1] == '.' then |s| - 1
    else if LastDot(s[..|s| - 1]) == |s| - 1 then |s|
    else LastDot(s[..|s| - 1])
  }

  /** `Path(name).suffix`: from the last `.` on, unless that `.` starts or ends the name.
      A name has a suffix exactly when it does not end in `.` and holds a `.`
      past its first character; the suffix is then the end of the name that
      starts with a `.` and holds no other. */
  function Suffix(name: string): (r: string)
    ensures r == [] || (r[0] == '.' && '.' !in r[1..] && |r| >= 2 && EndsWith(name, r) && |r| < |name|)
    ensures r != [] <==> |name| >= 3 && name[|name| - 1] != '.' && '.' in name[1..|name| - 1]
  {
    var i := LastDot(name);
    if 0 < i < |name| - 1 then
      assert name[|name| - |name[i..]|..] == name[i..];
      assert name[1..|name| - 1][i - 1] == '.';
      name[i..]
    else
      assert |name| >= 3 && name[|name| - 1] != '.' ==> '.' !in name[1..|name| - 1] by {
        if |name| >= 3 && name[|name| - 1] != '.' {
          var middle := name[1..|name| - 1];
          forall k | 0 <= k < |middle| ensures middle[k] != '.' {
            assert middle[k] == name[k + 1];
          }
        }
      }
      []
  }

  /** A name made of a non-empty stem and an extension is suffixed by that
      extension, whatever dots the stem holds. */
  lemma SuffixAfterStem(stem: string, ext: string)
    requires stem != []
    requires |ext| >= 2 && ext[0] == '.' && '.' !in ext[1..]
    ensures Suffix(stem + ext) == ext
  {
    var name := stem + ext;
    var i := LastDot(name);
    assert name[|stem|] == '.';
    forall k | |stem| < k < |name| ensures name[k] != '.' {
      assert name[k] == ext[1..][k - |stem| - 1];
    }
    assert i == |stem|;
    assert name[i..] == ext;
  }

  /** `stem.PY` has the suffix `.py` once lower-cased, and is not `.git`. */
  lemma UpperPySuffix(stem: string)
    requires stem != [] && '.' !in stem
    ensures Lower(Suffix(stem + ".PY")) == ".py" && ".git" !in [stem + ".PY"]
  {
    var name := stem + ".PY";
    SuffixAfterStem(stem, ".PY");
    assert Lower(".PY")[1] == 'p' && Lower(".PY")[2] == 'y';
    assert name[|name| - 1] == 'Y';
  }

  // =====================================================================
  // Name order
  // =====================================================================

  /** Python's `a <= b` on strings: code point by code point, a prefix first. */
  predicate NameLe(a: string, b: string)
    decreases |a|
  {
    a == [] || (b != [] && (a[0] < b[0] || (a[0] == b[0] && NameLe(a[1..], b[1..]))))
  }

  lemma {:induction false} NameLeTotal(a: string, b: string)
    ensures NameLe(a, b) || NameLe(b, a)
    decreases |a|
  {
    if a != [] && b != [] && a[0] == b[0] {
      NameLeTotal(a[1..], b[1..]);
    }
  }

  lemma {:induction false} NameLeTrans(a: string, b: string, c: string)
    requires NameLe(a, b) && NameLe(b, c)
    ensures NameLe(a, c)
    decreases |a|
  {
    if a != [] && a[0] == b[0] && b[0] == c[0] {
      NameLeTrans(a[1..], b[1..], c[1..]);
    }
  }

  /** The entries are in name order. */
  predicate SortedByName(ns: seq<Node>) {
    forall i, j :: 0 <= i < j < |ns| ==> NameLe(ns[i].name, ns[j].name)
  }

  /** `n` placed before the first entry it does not follow. */
  function Insert(n: Node, ns: seq<Node>): (r: seq<Node>)
    ensures multiset(r) == multiset(ns) + multiset{n}
  {
    if ns == [] then [n]
    else if NameLe(n.name, ns[0].name) then [n] + ns
    else
      assert ns == [ns[0]] + ns[1..];
      [ns[0]] + Insert(n, ns[1..])
  }

  /** Every member of a list of entries is one of its entries. */
  lemma MemberAt(x: Node, ns: seq<Node>) returns (j: nat)
    requires x in multiset(ns)
    ensures j < |ns| && ns[j] == x
  {
    j :| 0 <= j < |ns| && ns[j] == x;
  }

  /** An entry that precedes every entry of a sorted list keeps it sorted in front. */
  lemma SortedCons(x: Node, ns: seq<Node>)
    requires SortedByName(ns)
    requires forall y :: y in multiset(ns) ==> NameLe(x.name, y.name)
    ensures SortedByName([x] + ns)
  {
    forall j | 0 <= j < |ns| ensures NameLe(x.name, ns[j].name) {
      assert ns[j] in multiset(ns);
    }
  }

  /** Inserting into a sorted list keeps it sorted. */
  lemma {:induction false} InsertSorted(n: Node, ns: seq<Node>)
    requires SortedByName(ns)
    ensures SortedByName(Insert(n, ns))
  {
    if ns == [] {
    } else if NameLe(n.name, ns[0].name) {
      forall y: Node | y in multiset(ns) ensures NameLe(n.name, y.name) {
        var j := MemberAt(y, ns);
        if j > 0 {
          NameLeTrans(n.name, ns[0].name, ns[j].name);
        }
      }
      SortedCons(n, ns);
    } else {
      NameLeTotal(n.name, ns[0].name);
      var tail := ns[1..];
      InsertSorted(n, tail);
      var rest := Insert(n, tail);
      forall y: Node | y in multiset(rest) ensures NameLe(ns[0].name, y.name) {
        if y != n {
          var j := MemberAt(y, tail);
          assert ns[j + 1] == y;
        }
      }
      SortedCons(ns[0], rest);
    }
  }

  /** `sorted(entries)`, by name. */
  function SortByName(ns: seq<Node>): (r: seq<Node>)
    ensures SortedByName(r)
    ensures multiset(r) == multiset(ns)
  {
    if ns == [] then []
    else
      assert ns == [ns[0]] + ns[1..];
      InsertSorted(ns[0], SortByName(ns[1..]));
      Insert(ns[0], SortByName(ns[1..]))
  }
}
