/**
 * The ES-module wrapper written next to a CommonJS build: it imports the CommonJS module as its
 * default export and re-exports each of the module's own property names that is a valid
 * identifier, in sorted order. Loading the module is outside the model: the caller passes what
 * `typeof` says of it and its own property names; the identifier test is a parameter too.
 */
module EsmWrapper {
  import opened Text

  /** What `typeof mod` (and a `null` check) says of the loaded module. */
  datatype ModuleShape = FunctionModule | ObjectModule | OtherModule

  /** The own properties every function has, which a function module does not re-export. */
  const FunctionBuiltins: seq<string> := ["length", "prototype", "name", "caller"]

  // ---------------------------------------------------------------------------------------------
  // the key set

  /** The names kept: the own names except `__esModule`, except the function built-ins for a
      function module, and none at all for a module that is neither a function nor an object. */
  function ExportedKeys(shape: ModuleShape, ownNames: seq<string>): (keys: set<string>)
    ensures forall k :: k in keys <==>
      k in ownNames && k != "__esModule" && shape != OtherModule && (shape == FunctionModule ==> k !in FunctionBuiltins)
  {
    if shape == OtherModule then {}
    else if shape == FunctionModule then (set k | k in ownNames) - {"__esModule"} - (set k | k in FunctionBuiltins)
    else (set k | k in ownNames) - {"__esModule"}
  }

  /** The key set as the source builds it: a set of the own names, deletions, a clear. */
  method CollectKeys(shape: ModuleShape, ownNames: seq<string>) returns (keys: set<string>)
    ensures keys == ExportedKeys(shape, ownNames)
  {
    keys := set k | k in ownNames;
    keys := keys - {"__esModule"};
    if shape == FunctionModule {
      for i := 0 to |FunctionBuiltins|
        invariant forall k :: k in keys <==> k in ownNames && k != "__esModule" && k !in FunctionBuiltins[..i]
      {
        assert FunctionBuiltins[..i + 1] == FunctionBuiltins[..i] + [FunctionBuiltins[i]];
        keys := keys - {FunctionBuiltins[i]};
      }
      assert FunctionBuiltins[..|FunctionBuiltins|] == FunctionBuiltins;
    } else if shape == OtherModule {
      keys := {};
    }
  }

  // ---------------------------------------------------------------------------------------------
  // the import path

  /** A path that does not already start with `./` or `../` and is not `..` gets `./` in front. */
  function NormalizeRelPath(relPath: string): (r: string)
    ensures StartsWith(r, "./") || StartsWith(r, "../") || r == ".."
    ensures StartsWith(relPath, "./") || StartsWith(relPath, "../") || relPath == ".." ==> r == relPath
    ensures !(StartsWith(relPath, "./") || StartsWith(relPath, "../") || relPath == "..") ==> r == "./" + relPath
  {
    if !StartsWith(relPath, "./") && !StartsWith(relPath, "../") && relPath != ".." then "./" + relPath else relPath
  }

  /** Normalising twice is normalising once. */
  lemma NormalizeIdempotent(relPath: string)
    ensures NormalizeRelPath(NormalizeRelPath(relPath)) == NormalizeRelPath(relPath)
  {
  }

  // ---------------------------------------------------------------------------------------------
  // sort order

  /** `Array.prototype.sort`'s default order on strings: character by character, a proper prefix
      first. */
  predicate Less(a: string, b: string)
    decreases |a|
  {
    |b| > 0 && (|a| == 0 || a[0] < b[0] || (a[0] == b[0] && Less(a[1..], b[1..])))
  }

  lemma {:induction false} LessIrreflexive(a: string)
    ensures !Less(a, a)
    decreases |a|
  {
    if |a| > 0 {
      LessIrreflexive(a[1..]);
    }
  }

  lemma {:induction false} LessAsymmetric(a: string, b: string)
    requires Less(a, b)
    ensures !Less(b, a)
    decreases |a|
  {
    if |a| > 0 && a[0] == b[0] {
      LessAsymmetric(a[1..], b[1..]);
    }
  }

  lemma {:induction false} LessTransitive(a: string, b: string, c: string)
    requires Less(a, b) && Less(b, c)
    ensures Less(a, c)
    decreases |a|
  {
    if |a| > 0 && a[0] == b[0] && b[0] == c[0] {
      LessTransitive(a[1..], b[1..], c[1..]);
    }
  }

  lemma {:induction false} LessTotal(a: string, b: string)
    requires a != b
    ensures Less(a, b) || Less(b, a)
    decreases |a|
  {
    if |a| > 0 && |b| > 0 && a[0] == b[0] {
      assert a == [a[0]] + a[1..] && b == [b[0]] + b[1..];
      LessTotal(a[1..], b[1..]);
    }
  }

  predicate StrictlySorted(s: seq<string>)
  {
    forall i, j :: 0 <= i < j < |s| ==> Less(s[i], s[j])
  }

  ghost predicate SameElements(s: seq<string>, keys: set<string>)
  {
    forall k :: k in s <==> k in keys
  }

  predicate IsMinimum(m: string, keys: set<string>)
  {
    m in keys && forall k :: k in keys && k != m ==> Less(m, k)
  }

  /** Every non-empty set of strings has a least element. */
  lemma {:induction false} MinimumExists(keys: set<string>)
    requires keys != {}
    ensures exists m :: IsMinimum(m, keys)
    decreases |keys|
  {
    var x :| x in keys;
    if keys != {x} {
      var rest := keys - {x};
      MinimumExists(rest);
      var m :| IsMinimum(m, rest);
      if Less(x, m) {
        forall k | k in keys && k != x ensures Less(x, k) {
          if k != m {
            LessTransitive(x, m, k);
          }
        }
        assert IsMinimum(x, keys);
      } else {
        LessTotal(x, m);
        assert IsMinimum(m, keys);
      }
    }
  }

  /** Every finite set of strings can be listed in sorted order. */
  lemma {:induction false} SortedExists(keys: set<string>)
    ensures exists s :: StrictlySorted(s) && SameElements(s, keys)
    decreases |keys|
  {
    if keys == {} {
      assert StrictlySorted([]) && SameElements([], keys);
    } else {
      MinimumExists(keys);
      var m :| IsMinimum(m, keys);
      SortedExists(keys - {m});
      var s :| StrictlySorted(s) && SameElements(s, keys - {m});
      var r := [m] + s;
      forall i, j | 0 <= i < j < |r| ensures Less(r[i], r[j]) {
        if i == 0 {
          assert r[j] in keys - {m};
        } else {
          assert r[i] == s[i - 1] && r[j] == s[j - 1];
        }
      }
      assert SameElements(r, keys);
    }
  }

  /** ... and in only one. */
  lemma {:induction false} SortedUnique(a: seq<string>, b: seq<string>, keys: set<string>)
    requires StrictlySorted(a) && SameElements(a, keys)
    requires StrictlySorted(b) && SameElements(b, keys)
    ensures a == b
    decreases |a|
  {
    assert b != [] ==> b[0] in b;
    if a == [] {
    } else {
      assert a[0] in b;
      var j :| 0 <= j < |b| && b[j] == a[0];
      assert b[0] in a;
      var i :| 0 <= i < |a| && a[i] == b[0];
      if j > 0 {
        if i == 0 {
          LessIrreflexive(b[0]);
        } else {
          LessAsymmetric(a[0], a[i]);
        }
        assert false;
      }
      forall k | k in a[1..] ensures k != a[0] {
        var p :| 1 <= p < |a| && a[p] == k;
        LessIrreflexive(a[0]);
      }
      forall k | k in b[1..] ensures k != b[0] {
        var p :| 1 <= p < |b| && b[p] == k;
        LessIrreflexive(b[0]);
      }
      assert SameElements(a[1..], keys - {a[0]}) by {
        forall k ensures k in a[1..] <==> k in keys - {a[0]} {
          if k in keys - {a[0]} {
            assert k in a;
            var p :| 0 <= p < |a| && a[p] == k;
            assert p != 0;
            assert k == a[1..][p - 1];
          }
        }
      }
      assert SameElements(b[1..], keys - {a[0]}) by {
        forall k ensures k in b[1..] <==> k in keys - {a[0]} {
          if k in keys - {a[0]} {
            assert k in b;
            var p :| 0 <= p < |b| && b[p] == k;
            assert p != 0;
            assert k == b[1..][p - 1];
          }
        }
      }
      SortedUnique(a[1..], b[1..], keys - {a[0]});
      assert a == [a[0]] + a[1..] && b == [b[0]] + b[1..];
    }
  }

  /** `[...keys].sort()`: the keys in sorted order. */
  ghost function SortedKeys(keys: set<string>): (s: seq<string>)
    ensures StrictlySorted(s) && SameElements(s, keys)
  {
    SortedExists(keys);
    var s :| StrictlySorted(s) && SameElements(s, keys);
    s
  }

  /** Sorting the key set: repeatedly take the least remaining key. */
  method SortKeys(keys: set<string>) returns (sorted: seq<string>)
    ensures sorted == SortedKeys(keys)
  {
    sorted := [];
    var remaining := keys;
    while remaining != {}
      invariant StrictlySorted(sorted)
      invariant forall k :: k in keys <==> k in sorted || k in remaining
      invariant forall k :: k in sorted ==> k !in remaining
      invariant forall i, k :: 0 <= i < |sorted| && k in remaining ==> Less(sorted[i], k)
      decreases |remaining|
    {
      MinimumExists(remaining);
      var m :| IsMinimum(m, remaining);
      sorted := sorted + [m];
      remaining := remaining - {m};
    }
    SortedUnique(sorted, SortedKeys(keys), keys);
  }

  // ---------------------------------------------------------------------------------------------
  // the wrapper text

  function Header(relPath: string): string
  {
    "import mod from " + JsonQuote(relPath) + ";" + "\n"
  }

  const Footer: string := "\nexport default mod;"

  function ExportLine(key: string): string
  {
    "export const " + key + " = mod." + key + ";\n"
  }

  /** The keys that pass the identifier test, in their order. */
  function ValidKeys(keys: seq<string>, isValidIdentifier: string -> bool): seq<string>
  {
    if keys == [] then []
    else ValidKeys(keys[..|keys| - 1], isValidIdentifier)
         + (if isValidIdentifier(keys[|keys| - 1]) then [keys[|keys| - 1]] else [])
  }

  function ExportBlock(keys: seq<string>): string
  {
    if keys == [] then "" else ExportBlock(keys[..|keys| - 1]) + ExportLine(keys[|keys| - 1])
  }

  lemma ValidKeysSnoc(keys: seq<string>, key: string, isValidIdentifier: string -> bool)
    ensures ValidKeys(keys + [key], isValidIdentifier)
         == ValidKeys(keys, isValidIdentifier) + (if isValidIdentifier(key) then [key] else [])
  {
    assert (keys + [key])[..|keys|] == keys;
  }

  lemma ExportBlockSnoc(keys: seq<string>, key: string)
    ensures ExportBlock(keys + [key]) == ExportBlock(keys) + ExportLine(key)
  {
    assert (keys + [key])[..|keys|] == keys;
  }

  /** One more key of the sorted list adds its export line exactly when it is a valid identifier. */
  lemma ExportPrefixStep(sorted: seq<string>, i: nat, isValidIdentifier: string -> bool)
    requires i < |sorted|
    ensures ExportBlock(ValidKeys(sorted[..i + 1], isValidIdentifier))
         == ExportBlock(ValidKeys(sorted[..i], isValidIdentifier)) + (if isValidIdentifier(sorted[i]) then ExportLine(sorted[i]) else "")
  {
    assert sorted[..i + 1] == sorted[..i] + [sorted[i]];
    ValidKeysSnoc(sorted[..i], sorted[i], isValidIdentifier);
    if isValidIdentifier(sorted[i]) {
      ExportBlockSnoc(ValidKeys(sorted[..i], isValidIdentifier), sorted[i]);
    } else {
      var prefix := ValidKeys(sorted[..i], isValidIdentifier);
      assert ValidKeys(sorted[..i + 1], isValidIdentifier) == prefix + [] == prefix;
      assert ExportBlock(prefix) + "" == ExportBlock(prefix);
    }
  }

  /** The wrapper for a module of the given shape and own names. */
  ghost function Wrapper(shape: ModuleShape, ownNames: seq<string>, relPath: string, isValidIdentifier: string -> bool): string
  {
    Header(NormalizeRelPath(relPath))
    + ExportBlock(ValidKeys(SortedKeys(ExportedKeys(shape, ownNames)), isValidIdentifier))
    + Footer
  }

  /** The loop over the sorted keys: one export line per key that is a valid identifier. */
  method AppendExports(header: string, sorted: seq<string>, isValidIdentifier: string -> bool) returns (output: string)
    ensures output == header + ExportBlock(ValidKeys(sorted, isValidIdentifier))
  {
    output := header;
    for i := 0 to |sorted|
      invariant output == header + ExportBlock(ValidKeys(sorted[..i], isValidIdentifier))
    {
      var key := sorted[i];
      ExportPrefixStep(sorted, i, isValidIdentifier);
      if isValidIdentifier(key) {
        output := output + ExportLine(key);
      }
    }
    assert sorted[..|sorted|] == sorted;
  }

  /** `cjsToEsm(source, target, relPath)` after the module is loaded. */
  method CjsToEsm(shape: ModuleShape, ownNames: seq<string>, relPath: string, isValidIdentifier: string -> bool)
    returns (output: string)
    ensures output == Wrapper(shape, ownNames, relPath, isValidIdentifier)
  {
    var keys := CollectKeys(shape, ownNames);
    var path := relPath;
    if !StartsWith(path, "./") && !StartsWith(path, "../") && path != ".." {
      path := "./" + path;
    }
    output := "import mod from " + JsonQuote(path) + ";";
    output := output + "\n";
    assert output == Header(path);
    var sorted := SortKeys(keys);
    output := AppendExports(output, sorted, isValidIdentifier);
    output := output + "\nexport default mod;";
  }

  // ---------------------------------------------------------------------------------------------

  /** The identifier test keeps keys in order and drops exactly the invalid ones. */
  lemma {:induction false} ValidKeysMembers(keys: seq<string>, isValidIdentifier: string -> bool)
    ensures forall k :: k in ValidKeys(keys, isValidIdentifier) <==> k in keys && isValidIdentifier(k)
    ensures StrictlySorted(keys) ==> StrictlySorted(ValidKeys(keys, isValidIdentifier))
  {
    if keys != [] {
      var init := keys[..|keys| - 1];
      var last := keys[|keys| - 1];
      ValidKeysMembers(init, isValidIdentifier);
      var v := ValidKeys(init, isValidIdentifier);
      assert ValidKeys(keys, isValidIdentifier) == v + (if isValidIdentifier(last) then [last] else []);
      assert forall k :: k in keys <==> k in init || k == last by {
        assert keys == init + [last];
      }
      if StrictlySorted(keys) {
        assert StrictlySorted(init);
        forall i | 0 <= i < |v| ensures Less(v[i], last) {
          assert v[i] in init;
          var p :| 0 <= p < |init| && init[p] == v[i];
          assert init[p] == keys[p];
        }
      }
    }
  }

  /** The wrapper re-exports exactly the own names that are valid identifiers, other than
      `__esModule`, other than a function's built-ins, and none for a module that is neither a
      function nor an object; each once, in sorted order. */
  lemma ExportedNames(shape: ModuleShape, ownNames: seq<string>, isValidIdentifier: string -> bool)
    ensures var names := ValidKeys(SortedKeys(ExportedKeys(shape, ownNames)), isValidIdentifier);
            StrictlySorted(names)
            && forall k :: k in names <==>
                 k in ownNames && isValidIdentifier(k) && k != "__esModule" && shape != OtherModule
                 && (shape == FunctionModule ==> k !in FunctionBuiltins)
  {
    ValidKeysMembers(SortedKeys(ExportedKeys(shape, ownNames)), isValidIdentifier);
  }

  /** A module that is neither a function nor an object gets only the import and the default
      export. */
  lemma OtherModuleExportsNothing(ownNames: seq<string>, relPath: string, isValidIdentifier: string -> bool)
    ensures Wrapper(OtherModule, ownNames, relPath, isValidIdentifier) == Header(NormalizeRelPath(relPath)) + Footer
  {
    var s := SortedKeys({});
    if s != [] {
      assert s[0] in s;
    }
  }

  /** The wrapper starts by importing the module from the normalised path and ends with the
      default export. */
  lemma WrapperFrame(shape: ModuleShape, ownNames: seq<string>, relPath: string, isValidIdentifier: string -> bool)
    ensures StartsWith(Wrapper(shape, ownNames, relPath, isValidIdentifier), "import mod from " + JsonQuote(NormalizeRelPath(relPath)) + ";\n")
    ensures EndsWith(Wrapper(shape, ownNames, relPath, isValidIdentifier), "\nexport default mod;")
  {
    var w := Wrapper(shape, ownNames, relPath, isValidIdentifier);
    var h := "import mod from " + JsonQuote(NormalizeRelPath(relPath)) + ";\n";
    var b := ExportBlock(ValidKeys(SortedKeys(ExportedKeys(shape, ownNames)), isValidIdentifier));
    assert Header(NormalizeRelPath(relPath)) == h;
    assert w == h + (b + Footer);
    assert w == (h + b) + Footer;
  }
}
