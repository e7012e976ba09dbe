/**
 * What the install command forwards to `bower` and what it keeps for itself
 * (commands/install.js:15-21, 39-41, 61-67).
 */
module Arguments {
  import opened JsStrings

  /** The tool's own flags, which are never forwarded to `bower`. */
  const CustomArgs: seq<string> := ["--catalog", "-C", "--web-url", "--require-confs"]

  /** `config.customArgs.indexOf(arg) !== -1`: a reserved flag, by exact equality. */
  function IsCustomArg(arg: string): (reserved: bool)
    ensures reserved <==> arg == "--catalog" || arg == "-C" || arg == "--web-url" || arg == "--require-confs"
  {
    IndexOf(CustomArgs, arg) != -1
  }

  /** The raw tokens that are forwarded, in their original order. */
  function Forwarded(tokens: seq<string>): (kept: seq<string>)
    ensures |kept| <= |tokens|
  {
    if tokens == [] then []
    else
      var last := tokens[|tokens| - 1];
      Forwarded(tokens[..|tokens| - 1]) + (if IsCustomArg(last) then [] else [last])
  }

  /** The argument list handed to `bower`: "install", then the forwarded tokens. */
  method BuildBowerCommand(cmdArgs: seq<string>) returns (bowerCommand: seq<string>)
    ensures bowerCommand == ["install"] + Forwarded(cmdArgs)
    ensures bowerCommand[0] == "install"
    ensures forall i :: 1 <= i < |bowerCommand| ==> !IsCustomArg(bowerCommand[i])
  {
    bowerCommand := ["install"];
    var i := 0;
    while i < |cmdArgs|
      invariant 0 <= i <= |cmdArgs|
      invariant bowerCommand == ["install"] + Forwarded(cmdArgs[..i])
    {
      var arg := cmdArgs[i];
      assert cmdArgs[..i + 1][..i] == cmdArgs[..i];
      if IndexOf(CustomArgs, arg) == -1 {
        bowerCommand := bowerCommand + [arg];
      }
      i := i + 1;
    }
    assert cmdArgs[..|cmdArgs|] == cmdArgs;
    ForwardedNoReserved(cmdArgs);
    assert forall i :: 1 <= i < |bowerCommand| ==> bowerCommand[i] in Forwarded(cmdArgs);
  }

  /** `argCatalog`: the raw tokens hold `--catalog` or `-C`. */
  function CatalogFlag(cmdArgs: seq<string>): (catalog: bool)
    ensures catalog <==> exists i :: 0 <= i < |cmdArgs| && (cmdArgs[i] == "--catalog" || cmdArgs[i] == "-C")
  {
    IndexOf(cmdArgs, "--catalog") > -1 || IndexOf(cmdArgs, "-C") > -1
  }

  /** No reserved flag is ever forwarded. */
  lemma {:induction false} ForwardedNoReserved(tokens: seq<string>)
    ensures forall t :: t in Forwarded(tokens) ==> !IsCustomArg(t)
  {
    if tokens != [] {
      ForwardedNoReserved(tokens[..|tokens| - 1]);
    }
  }

  /** Filtering distributes over concatenation, so relative order is kept. */
  lemma {:induction false} ForwardedAppend(a: seq<string>, b: seq<string>)
    ensures Forwarded(a + b) == Forwarded(a) + Forwarded(b)
  {
    if b == [] {
      assert a + b == a;
    } else {
      var init := b[..|b| - 1];
      var last := b[|b| - 1];
      assert (a + b)[..|a + b| - 1] == a + init;
      ForwardedAppend(a, init);
    }
  }

  /** Appending one token appends it to the forwarded tokens unless it is reserved. */
  lemma ForwardedSnoc(init: seq<string>, last: string)
    ensures Forwarded(init + [last]) == Forwarded(init) + if IsCustomArg(last) then [] else [last]
  {
    assert (init + [last])[..|init|] == init;
  }

  /** A single token is forwarded exactly when it is not reserved. */
  lemma ForwardedSingle(t: string)
    ensures Forwarded([t]) == if IsCustomArg(t) then [] else [t]
  {
    assert [t][..0] == [];
  }

  /** Every non-reserved token is forwarded as many times as it occurs; reserved ones never. */
  lemma {:induction false} ForwardedCount(tokens: seq<string>, t: string)
    ensures multiset(Forwarded(tokens))[t] == if IsCustomArg(t) then 0 else multiset(tokens)[t]
  {
    if tokens != [] {
      var init := tokens[..|tokens| - 1];
      var last := tokens[|tokens| - 1];
      ForwardedCount(init, t);
      assert tokens == init + [last];
      assert multiset(tokens) == multiset(init) + multiset{last};
      var tail := if IsCustomArg(last) then [] else [last];
      assert Forwarded(tokens) == Forwarded(init) + tail;
      assert multiset(Forwarded(tokens)) == multiset(Forwarded(init)) + multiset(tail);
    }
  }

  /** Without reserved tokens, everything is forwarded unchanged. */
  lemma {:induction false} ForwardedAllPlain(tokens: seq<string>)
    requires forall i :: 0 <= i < |tokens| ==> !IsCustomArg(tokens[i])
    ensures Forwarded(tokens) == tokens
  {
    if tokens != [] {
      ForwardedAllPlain(tokens[..|tokens| - 1]);
      assert tokens == tokens[..|tokens| - 1] + [tokens[|tokens| - 1]];
    }
  }

  /**
   * Each token is judged on its own: a reserved flag drops out, and the
   * token that follows it (such as the value after `--web-url`) is forwarded
   * unless it is reserved itself.
   */
  lemma FlagValueForwarded(before: seq<string>, flag: string, value: string, after: seq<string>)
    requires IsCustomArg(flag) && !IsCustomArg(value)
    ensures Forwarded(before + [flag, value] + after) == Forwarded(before) + [value] + Forwarded(after)
  {
    assert Forwarded([flag, value]) == [value] by {
      ForwardedSingle(flag);
      ForwardedSnoc([flag], value);
      assert [flag] + [value] == [flag, value];
    }
    ForwardedAppend(before, [flag, value]);
    ForwardedAppend(before + [flag, value], after);
  }

  /** Near misses of the reserved flags are not reserved; the flags themselves are. */
  lemma NearMissesNotReserved()
    ensures !IsCustomArg("--catalog=true") && !IsCustomArg("--web-urlX") && !IsCustomArg("-c")
    ensures IsCustomArg("--web-url") && IsCustomArg("-C")
  {
  }

  /** The catalog flag is read from the raw tokens; the forwarded ones never carry it. */
  lemma CatalogFlagNotForwarded(tokens: seq<string>)
    ensures !CatalogFlag(Forwarded(tokens))
  {
    ForwardedNoReserved(tokens);
  }

  /** Other tokens, before or after, do not change the catalog flag's verdict. */
  lemma CatalogFlagConcat(a: seq<string>, b: seq<string>)
    ensures CatalogFlag(a + b) == (CatalogFlag(a) || CatalogFlag(b))
  {
    if CatalogFlag(a + b) {
      var i :| 0 <= i < |a + b| && ((a + b)[i] == "--catalog" || (a + b)[i] == "-C");
      if i >= |a| { assert b[i - |a|] == (a + b)[i]; }
    }
    if CatalogFlag(b) {
      var i :| 0 <= i < |b| && (b[i] == "--catalog" || b[i] == "-C");
      assert (a + b)[|a| + i] == b[i];
    }
  }
}
