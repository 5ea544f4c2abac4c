/** Strict-mode evaluators: `unknownArguments`, `unknownCommands` and the alias
    test `isValidAndSomeAliasIsNotNew` (lib/validation.ts:116-189). */
module Unknown {
  import opened Values
  import opened Reports

  /** What the framework supplies to tell known keys from unknown ones: the
      alias groups, the aliases the parser invented itself (`newAliases`), the
      keys bound to positional placeholders and the parser's own context keys. */
  datatype Lookups = Lookups(
    aliases: map<string, seq<string>>,
    newAliases: map<string, bool>,
    positionalMap: set<string>,
    parseContext: set<string>)

  /** `newAliases[a]` is truthy: the parser invented `a`. */
  predicate IsNew(newAliases: map<string, bool>, a: string)
  {
    a in newAliases && newAliases[a]
  }

  /** The group of `key` as scanned by the source: the key, then its aliases. */
  function Group(key: string, aliases: map<string, seq<string>>): seq<string>
    requires key in aliases
  {
    [key] + aliases[key]
  }

  // ---- the test as written ----

  /** The scan as written: the second test reads the flag of `key`, not of the
      alias `a` being visited. */
  function ScanAsWritten(group: seq<string>, key: string, newAliases: map<string, bool>): (r: bool)
    ensures r <==> group != [] && (!IsNew(newAliases, key) || exists a :: a in group && a !in newAliases)
  {
    if group == [] then false
    else if group[0] !in newAliases || !IsNew(newAliases, key) then true
    else
      var r := ScanAsWritten(group[1..], key, newAliases);
      assert forall a :: a in group ==> a == group[0] || a in group[1..];
      r
  }

  /** As written: the key has an alias group, and either the key's own flag is
      falsy or some member of the group is missing from `newAliases` altogether. */
  function IsValidAndSomeAliasIsNotNewAsWritten(key: string, aliases: map<string, seq<string>>,
                                                newAliases: map<string, bool>): (r: bool)
    ensures r <==> (key in aliases
                    && (!IsNew(newAliases, key) || exists a :: a in Group(key, aliases) && a !in newAliases))
  {
    key in aliases && ScanAsWritten(Group(key, aliases), key, newAliases)
  }

  /** As written, a key that is itself new counts as user-declared only when some
      member of its group is absent from `newAliases`; an alias recorded with a
      false flag is still treated as new. */
  lemma AsWrittenDiffersFromIntent()
    ensures var aliases, newAliases := map["k" := ["a"]], map["k" := true, "a" := false];
      !IsValidAndSomeAliasIsNotNewAsWritten("k", aliases, newAliases)
      && IsValidAndSomeAliasIsNotNew("k", aliases, newAliases)
  {
    var aliases, newAliases := map["k" := ["a"]], map["k" := true, "a" := false];
    assert Group("k", aliases) == ["k", "a"];
    assert ScanAsWritten(["a"], "k", newAliases) == ScanAsWritten([], "k", newAliases);
    assert "a" in Group("k", aliases) && !IsNew(newAliases, "a");
  }

  // ---- the corrected test ----

  /** Some member of the group was not invented by the parser. */
  function SomeNotNew(group: seq<string>, newAliases: map<string, bool>): (r: bool)
    ensures r <==> exists a :: a in group && !IsNew(newAliases, a)
  {
    if group == [] then false
    else if !IsNew(newAliases, group[0]) then true
    else
      var r := SomeNotNew(group[1..], newAliases);
      assert forall a :: a in group ==> a == group[0] || a in group[1..];
      r
  }

  /** `isValidAndSomeAliasIsNotNew`, with each alias's own flag read: the key
      has an alias group and some member of it was declared by the user. */
  function IsValidAndSomeAliasIsNotNew(key: string, aliases: map<string, seq<string>>,
                                       newAliases: map<string, bool>): (r: bool)
    ensures r <==> key in aliases && exists a :: a in Group(key, aliases) && !IsNew(newAliases, a)
  {
    key in aliases && SomeNotNew(Group(key, aliases), newAliases)
  }

  lemma {:induction false} ScanAsWrittenAgrees(group: seq<string>, key: string, newAliases: map<string, bool>)
    requires forall a :: a in newAliases ==> newAliases[a]
    requires group != [] && group[0] == key
    ensures ScanAsWritten(group, key, newAliases) == SomeNotNew(group, newAliases)
  {
    if IsNew(newAliases, key) && group[1..] != [] {
      ScanAsWrittenTail(group[1..], key, newAliases);
    }
  }

  lemma {:induction false} ScanAsWrittenTail(group: seq<string>, key: string, newAliases: map<string, bool>)
    requires forall a :: a in newAliases ==> newAliases[a]
    requires IsNew(newAliases, key)
    ensures ScanAsWritten(group, key, newAliases) == SomeNotNew(group, newAliases)
  {
    if group != [] {
      ScanAsWrittenTail(group[1..], key, newAliases);
    }
  }

  /** When the parser records every invented alias with a true flag, as it
      does, the two readings agree. */
  lemma AsWrittenAgreesWhenFlagsAreTrue(key: string, aliases: map<string, seq<string>>,
                                        newAliases: map<string, bool>)
    requires forall a :: a in newAliases ==> newAliases[a]
    ensures IsValidAndSomeAliasIsNotNewAsWritten(key, aliases, newAliases)
         == IsValidAndSomeAliasIsNotNew(key, aliases, newAliases)
  {
    if key in aliases {
      ScanAsWrittenAgrees(Group(key, aliases), key, newAliases);
    }
  }

  // ---- unknownArguments / unknownCommands ----

  /** A key of the argument set that strict mode rejects. */
  predicate IsUnknownKey(key: string, lookups: Lookups)
  {
    && !IsSpecialKey(key)
    && key !in lookups.positionalMap
    && key !in lookups.parseContext
    && !IsValidAndSomeAliasIsNotNew(key, lookups.aliases, lookups.newAliases)
  }

  /** The unknown keys among `keys`, in order. */
  function UnknownKeys(keys: seq<string>, lookups: Lookups): seq<Value>
  {
    if keys == [] then []
    else
      var k := keys[|keys| - 1];
      UnknownKeys(keys[..|keys| - 1], lookups) + (if IsUnknownKey(k, lookups) then [Str(k)] else [])
  }

  predicate IsKnownCommand(v: Value, commandKeys: seq<string>)
  {
    v.Str? && v.s in commandKeys
  }

  /** The positional tokens after the command path (`argv._.slice(depth)`). */
  function Leftover(argv: Dict<Value>, depth: nat): seq<Value>
  {
    var p := Positional(argv);
    if depth <= |p| then p[depth..] else []
  }

  /** The tokens that name no known command, in order. */
  function StrayTokens(tokens: seq<Value>, commandKeys: seq<string>): seq<Value>
  {
    if tokens == [] then []
    else
      var v := tokens[|tokens| - 1];
      StrayTokens(tokens[..|tokens| - 1], commandKeys) + (if IsKnownCommand(v, commandKeys) then [] else [v])
  }

  lemma {:induction false} UnknownKeysMembers(keys: seq<string>, lookups: Lookups)
    ensures forall v :: v in UnknownKeys(keys, lookups) <==> v.Str? && v.s in keys && IsUnknownKey(v.s, lookups)
  {
    if keys != [] {
      UnknownKeysMembers(keys[..|keys| - 1], lookups);
      assert keys == keys[..|keys| - 1] + [keys[|keys| - 1]];
    }
  }

  lemma {:induction false} StrayTokensMembers(tokens: seq<Value>, commandKeys: seq<string>)
    ensures forall v :: v in StrayTokens(tokens, commandKeys) <==> v in tokens && !IsKnownCommand(v, commandKeys)
  {
    if tokens != [] {
      StrayTokensMembers(tokens[..|tokens| - 1], commandKeys);
      assert tokens == tokens[..|tokens| - 1] + [tokens[|tokens| - 1]];
    }
  }

  lemma NonEmptyIffSomeMember<T>(s: seq<T>)
    ensures s != [] <==> exists v :: v in s
  {
    if s != [] {
      assert s[0] in s;
    }
  }

  /** Whether leftover positional tokens are checked against the command names. */
  predicate ChecksCommands(depth: nat, commandKeys: seq<string>, isDefaultCommand: bool)
  {
    depth > 0 || |commandKeys| > 0 || isDefaultCommand
  }

  method CollectUnknownKeys(keys: seq<string>, lookups: Lookups) returns (unknown: seq<Value>)
    ensures unknown == UnknownKeys(keys, lookups)
  {
    unknown := [];
    var i := 0;
    while i < |keys|
      invariant 0 <= i <= |keys|
      invariant unknown == UnknownKeys(keys[..i], lookups)
    {
      assert keys[..i + 1][..i] == keys[..i];
      var key := keys[i];
      if !IsSpecialKey(key) && key !in lookups.positionalMap && key !in lookups.parseContext
         && !IsValidAndSomeAliasIsNotNew(key, lookups.aliases, lookups.newAliases) {
        unknown := unknown + [Str(key)];
      }
      i := i + 1;
    }
    assert keys[..i] == keys;
  }

  method CollectStrayTokens(tokens: seq<Value>, commandKeys: seq<string>) returns (stray: seq<Value>)
    ensures stray == StrayTokens(tokens, commandKeys)
  {
    stray := [];
    var i := 0;
    while i < |tokens|
      invariant 0 <= i <= |tokens|
      invariant stray == StrayTokens(tokens[..i], commandKeys)
    {
      assert tokens[..i + 1][..i] == tokens[..i];
      var token := tokens[i];
      if !(token.Str? && token.s in commandKeys) {
        stray := stray + [token];
      }
      i := i + 1;
    }
    assert tokens[..i] == tokens;
  }

  /** `unknownArguments`: at most one failure, exactly when some key is unknown
      or, where commands are checked, some leftover token names no command; it
      lists the unknown keys in key order, then the stray tokens in order. */
  method UnknownArguments(argv: Dict<Value>, lookups: Lookups, isDefaultCommand: bool,
                          commandKeys: seq<string>, depth: nat) returns (fails: seq<Failure>)
    ensures |fails| <= 1
    ensures fails != [] <==>
      (exists k :: k in argv.keys && IsUnknownKey(k, lookups))
      || (ChecksCommands(depth, commandKeys, isDefaultCommand)
          && exists v :: v in Leftover(argv, depth) && !IsKnownCommand(v, commandKeys))
    ensures fails != [] ==>
      fails == [UnknownArgument(UnknownKeys(argv.keys, lookups)
        + (if ChecksCommands(depth, commandKeys, isDefaultCommand)
           then StrayTokens(Leftover(argv, depth), commandKeys) else []))]
  {
    var unknown := CollectUnknownKeys(argv.keys, lookups);
    ghost var keysPart := unknown;
    ghost var strayPart: seq<Value> := [];
    UnknownKeysMembers(argv.keys, lookups);
    assert keysPart != [] <==> exists k :: k in argv.keys && IsUnknownKey(k, lookups) by {
      if keysPart != [] {
        assert keysPart[0] in keysPart;
      } else {
        forall k | k in argv.keys ensures !IsUnknownKey(k, lookups) {
          assert Str(k) !in keysPart;
        }
      }
    }
    if depth > 0 || |commandKeys| > 0 || isDefaultCommand {
      var stray := CollectStrayTokens(Leftover(argv, depth), commandKeys);
      unknown := unknown + stray;
      strayPart := stray;
      StrayTokensMembers(Leftover(argv, depth), commandKeys);
      NonEmptyIffSomeMember(stray);
    }
    assert unknown == keysPart + strayPart;
    if |unknown| > 0 {
      fails := [UnknownArgument(unknown)];
    } else {
      fails := [];
    }
  }

  /** `unknownCommands`: reports, and answers true, exactly when commands are
      known or a command path is active and some leftover token names no
      command; the failure lists those tokens in order. */
  method UnknownCommands(argv: Dict<Value>, commandKeys: seq<string>, depth: nat)
    returns (fails: seq<Failure>, found: bool)
    ensures found <==> fails != []
    ensures found <==>
      (depth > 0 || |commandKeys| > 0) && exists v :: v in Leftover(argv, depth) && !IsKnownCommand(v, commandKeys)
    ensures found ==> fails == [UnknownCommand(StrayTokens(Leftover(argv, depth), commandKeys))]
  {
    var unknown: seq<Value> := [];
    if depth > 0 || |commandKeys| > 0 {
      unknown := CollectStrayTokens(Leftover(argv, depth), commandKeys);
      StrayTokensMembers(Leftover(argv, depth), commandKeys);
      NonEmptyIffSomeMember(unknown);
    }
    if |unknown| > 0 {
      fails, found := [UnknownCommand(unknown)], true;
    } else {
      fails, found := [], false;
    }
  }
}
