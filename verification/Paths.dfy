/** Slash-separated names, and the relative paths they stand for. */
module Paths {
  /** A relative path as its components. */
  type Path = seq<string>

  const SEP := '/'

  /** Python's `s.split("/")`. */
  function Split(s: string): (parts: seq<string>)
    ensures parts != []
    ensures forall p :: p in parts ==> SEP !in p
  {
    if s == [] then [""]
    else
      var rest := Split(s[1..]);
      if s[0] == SEP then [""] + rest
      else
        var head := [s[0]] + rest[0];
        [head] + rest[1..]
  }

  /** Python's `"/".join(parts)`. */
  function Join(parts: seq<string>): string {
    if parts == [] then ""
    else if |parts| == 1 then parts[0]
    else parts[0] + [SEP] + Join(parts[1..])
  }

  /** A component of a real path: not empty, not `.`, and free of separators. */
  predicate Plain(part: string) { part != "" && part != "." && SEP !in part }

  predicate PlainPath(p: Path) { forall c :: c in p ==> Plain(c) }

  /** A path that stays below wherever it starts: plain components, none of them `..`. */
  predicate InnerPath(p: Path) { PlainPath(p) && ".." !in p }

  /** The components of `PurePosixPath(name)`, which drops empty and `.` ones. */
  function Parts(name: string): (p: Path)
    ensures PlainPath(p)
  {
    Keep(Split(name))
  }

  function Keep(parts: seq<string>): (p: Path)
    requires forall c :: c in parts ==> SEP !in c
    ensures PlainPath(p)
  {
    if parts == [] then []
    else if parts[0] == "" || parts[0] == "." then Keep(parts[1..])
    else [parts[0]] + Keep(parts[1..])
  }

  predicate Absolute(name: string) { name != "" && name[0] == SEP }

  predicate StrictPrefix<T(==)>(a: seq<T>, b: seq<T>) { |a| < |b| && a <= b }

  /** The one path is a place the other needs as a directory. */
  predicate Nested<T(==)>(a: seq<T>, b: seq<T>) { StrictPrefix(a, b) || StrictPrefix(b, a) }

  lemma {:induction false} JoinSplit(s: string)
    ensures Join(Split(s)) == s
  {
    if s == [] {
    } else {
      JoinSplit(s[1..]);
      var rest := Split(s[1..]);
      if s[0] == SEP {
        assert Split(s)[1..] == rest;
      } else {
        var parts := Split(s);
        assert parts[1..] == rest[1..];
        if |rest| == 1 {
          assert Join(parts) == [s[0]] + rest[0];
        } else {
          assert Join(parts) == ([s[0]] + rest[0]) + [SEP] + Join(rest[1..]);
        }
      }
    }
  }

  lemma {:induction false} SplitOne(part: string)
    requires SEP !in part
    ensures Split(part) == [part]
  {
    if part == "" {
    } else {
      assert part[0] in part && SEP !in part[1..];
      SplitOne(part[1..]);
      assert [part[0]] + part[1..] == part;
    }
  }

  lemma {:induction false} SplitAppend(part: string, s: string)
    requires SEP !in part
    ensures Split(part + [SEP] + s) == [part] + Split(s)
  {
    if part == "" {
      assert part + [SEP] + s == [SEP] + s;
    } else {
      assert part[0] in part && SEP !in part[1..];
      SplitAppend(part[1..], s);
      assert (part + [SEP] + s)[1..] == part[1..] + [SEP] + s;
      var t := Split(part[1..] + [SEP] + s);
      assert t[0] == part[1..] && t[1..] == Split(s);
      assert [part[0]] + part[1..] == part;
    }
  }

  lemma {:induction false} SplitJoin(parts: seq<string>)
    requires parts != [] && forall p :: p in parts ==> SEP !in p
    ensures Split(Join(parts)) == parts
  {
    if |parts| == 1 {
      SplitOne(parts[0]);
    } else {
      SplitJoin(parts[1..]);
      SplitAppend(parts[0], Join(parts[1..]));
    }
  }

  lemma {:induction false} KeepPlain(parts: seq<string>)
    requires PlainPath(parts)
    ensures Keep(parts) == parts
  {
    if parts == [] {
    } else {
      assert parts[0] in parts;
      KeepPlain(parts[1..]);
    }
  }

  lemma {:induction false} KeepAppend(a: seq<string>, b: seq<string>)
    requires forall c :: c in a + b ==> SEP !in c
    ensures (forall c :: c in a ==> SEP !in c) && (forall c :: c in b ==> SEP !in c)
    ensures Keep(a + b) == Keep(a) + Keep(b)
  {
    assert (forall c :: c in a ==> c in a + b) && (forall c :: c in b ==> c in a + b);
    if a == [] {
      assert a + b == b;
    } else {
      assert (a + b)[1..] == a[1..] + b;
      assert forall c :: c in a[1..] + b ==> c in a + b;
      KeepAppend(a[1..], b);
    }
  }

  lemma {:induction false} SplitBoth(a: string, b: string)
    ensures Split(a + [SEP] + b) == Split(a) + Split(b)
  {
    if a == "" {
      assert a + [SEP] + b == [SEP] + b;
    } else {
      assert (a + [SEP] + b)[1..] == a[1..] + [SEP] + b;
      SplitBoth(a[1..], b);
    }
  }

  /** The components of a name are those before any of its slashes, and then those behind it; of a text
      without a slash it is the text itself, but for an empty one and the dot. */
  lemma PartsConcat(a: string, b: string)
    ensures Parts(a + "/" + b) == Parts(a) + Parts(b)
    ensures SEP !in a ==> Parts(a) == if a == "" || a == "." then [] else [a]
  {
    assert a + "/" + b == a + [SEP] + b;
    SplitBoth(a, b);
    KeepAppend(Split(a), Split(b));
    if SEP !in a { SplitOne(a); }
  }

  /** A plain path survives being written as a name and read back. */
  lemma PartsOfJoin(p: Path)
    requires p != [] && PlainPath(p)
    ensures Parts(Join(p)) == p
  {
    SplitJoin(p);
    KeepPlain(p);
  }

  lemma {:induction false} JoinAppend(a: seq<string>, b: seq<string>)
    requires a != [] && b != []
    ensures Join(a + b) == Join(a) + [SEP] + Join(b)
  {
    if |a| == 1 {
      assert (a + b)[1..] == b;
    } else {
      JoinAppend(a[1..], b);
      assert (a + b)[1..] == a[1..] + b;
      assert Join(a + b) == a[0] + [SEP] + (Join(a[1..]) + [SEP] + Join(b));
    }
  }

  /** One plain path lies strictly below another exactly when its name starts with the other's and a slash. */
  lemma BelowIsPrefix(a: Path, b: Path)
    requires a != [] && b != [] && PlainPath(a) && PlainPath(b)
    ensures StrictPrefix(a, b) <==> Join(a) + [SEP] <= Join(b)
  {
    if StrictPrefix(a, b) {
      assert b == a + b[|a|..];
      JoinAppend(a, b[|a|..]);
    }
    if Join(a) + [SEP] <= Join(b) {
      var rest := Join(b)[|Join(a)| + 1..];
      assert Join(b) == Join(a) + [SEP] + rest;
      SplitPrefix(a, rest);
      SplitJoin(b);
    }
  }

  lemma {:induction false} SplitPrefix(a: seq<string>, rest: string)
    requires a != [] && forall p :: p in a ==> SEP !in p
    ensures Split(Join(a) + [SEP] + rest) == a + Split(rest)
  {
    if |a| == 1 {
      SplitAppend(a[0], rest);
    } else {
      SplitPrefix(a[1..], rest);
      SplitAppend(a[0], Join(a[1..]) + [SEP] + rest);
      assert Join(a) == a[0] + [SEP] + Join(a[1..]);
      assert Join(a) + [SEP] + rest == a[0] + [SEP] + (Join(a[1..]) + [SEP] + rest);
      assert a == [a[0]] + a[1..];
    }
  }

  /** What `"/".join(key.split("/")[:i])` can be: exactly the text before some slash of the key. */
  lemma {:induction false} PrefixesOfKey(key: string, above: string)
    ensures above + [SEP] <= key <==> exists i :: 1 <= i < |Split(key)| && Join(Split(key)[..i]) == above
  {
    if above + [SEP] <= key {
      var rest := key[|above| + 1..];
      assert key == above + [SEP] + rest;
      var a := Split(above);
      JoinSplit(above);
      SplitPrefix(a, rest);
      assert Split(key)[..|a|] == a;
    }
    if i :| 1 <= i < |Split(key)| && Join(Split(key)[..i]) == above {
      var parts := Split(key);
      assert parts == parts[..i] + parts[i..];
      JoinAppend(parts[..i], parts[i..]);
      JoinSplit(key);
    }
  }
}
