/** Stage two, `save_pages.py`: for every manifest link whose PDF is not there
    yet, run the Node renderer with retries and exponential backoff, and count
    the outcomes.

    The Node process is an oracle: for a command line and an attempt number it
    gives the exit code and whether the expected PDF exists afterwards. Sleeps
    are recorded as a list of waits in seconds. The filesystem is the set of
    paths that exist. */
module SavePages {
  import opened Strings
  import opened Records

  /** The settings `main` hands to every `run_node_save` call. An option that
      was not given is the empty string: Python's `None` and `""` are both
      false, so neither adds a flag. */
  datatype RenderOptions = RenderOptions(
    scriptPath: string,
    outputDir: string,
    maxRetries: int,
    selector: string,
    proxy: string,
    proxyUsername: string,
    proxyPassword: string)

  /** What one run of the renderer leaves: its exit code, and whether the
      output PDF exists afterwards. */
  datatype Attempt = Attempt(exitCode: int, fileExists: bool)

  /** The renderer: the outcome of running a command line for the n-th time,
      counting from 0. */
  type Renderer = (seq<string>, nat) -> Attempt

  /** Success is exit code 0 and the file present. */
  predicate Succeeded(a: Attempt) {
    a.exitCode == 0 && a.fileExists
  }

  /** One `--key=value` argument of the command line: always there when
      `always` holds, and otherwise only for a non-empty value. */
  datatype Field = Field(key: string, value: string, always: bool)

  predicate Emits(f: Field) {
    f.always || f.value != ""
  }

  /** The arguments the fields produce, in order. */
  function FieldArgs(fs: seq<Field>): seq<string> {
    if fs == [] then []
    else (if Emits(fs[0]) then [fs[0].key + fs[0].value] else []) + FieldArgs(fs[1..])
  }

  /** The selector and proxy flags, in the order `run_node_save` appends them. */
  const OptionKeys: seq<string> := ["--selector=", "--proxy=", "--proxyUsername=", "--proxyPassword="]

  function OptionValues(opts: RenderOptions): seq<string> {
    [opts.selector, opts.proxy, opts.proxyUsername, opts.proxyPassword]
  }

  /** Optional fields, one per key, each present only when its value is
      non-empty. */
  function OptionFields(keys: seq<string>, values: seq<string>): (fs: seq<Field>)
    requires |keys| == |values|
    ensures |fs| == |values|
    ensures forall i :: 0 <= i < |fs| ==> fs[i] == Field(keys[i], values[i], false)
  {
    if values == [] then [] else [Field(keys[0], values[0], false)] + OptionFields(keys[1..], values[1..])
  }

  /** The arguments after the script path: `--url=`, `--fileName=` and
      `--outputDir=` always, then the selector and proxy flags, each only when
      given. */
  function CommandFields(opts: RenderOptions, url: string, fileName: string): seq<Field> {
    [Field("--url=", url, true), Field("--fileName=", fileName, true), Field("--outputDir=", opts.outputDir, true)]
    + OptionFields(OptionKeys, OptionValues(opts))
  }

  /** The `cmd` list of `run_node_save`: `node`, the script, then the fields. */
  function Command(opts: RenderOptions, url: string, fileName: string): seq<string> {
    ["node", opts.scriptPath] + FieldArgs(CommandFields(opts, url, fileName))
  }

  predicate HasPrefix(s: string, prefix: string) {
    |prefix| <= |s| && s[..|prefix|] == prefix
  }

  /** How a reader of the argument list finds an option: the text after the
      first argument that starts with `prefix`, or "" when there is none. */
  function FlagValue(args: seq<string>, prefix: string): string {
    if args == [] then ""
    else if HasPrefix(args[0], prefix) then args[0][|prefix|..]
    else FlagValue(args[1..], prefix)
  }

  lemma Prefixed(prefix: string, value: string)
    ensures HasPrefix(prefix + value, prefix) && (prefix + value)[|prefix|..] == value
  {
    assert (prefix + value)[..|prefix|] == prefix;
  }

  /** No argument of `args` starts with `prefix`. */
  predicate NoPrefix(args: seq<string>, prefix: string) {
    forall k :: 0 <= k < |args| ==> !HasPrefix(args[k], prefix)
  }

  /** A list in which no argument starts with `prefix` yields "". */
  lemma {:induction false} FlagValueAbsent(args: seq<string>, prefix: string)
    requires NoPrefix(args, prefix)
    ensures FlagValue(args, prefix) == ""
  {
    if args != [] {
      FlagValueAbsent(args[1..], prefix);
    }
  }

  /** Arguments without the prefix are passed over. */
  lemma {:induction false} FlagValueSkips(a: seq<string>, b: seq<string>, prefix: string)
    requires NoPrefix(a, prefix)
    ensures FlagValue(a + b, prefix) == FlagValue(b, prefix)
  {
    if a != [] {
      assert (a + b)[1..] == a[1..] + b;
      FlagValueSkips(a[1..], b, prefix);
    } else {
      assert a + b == b;
    }
  }

  lemma NoPrefixAppend(a: seq<string>, b: seq<string>, p: string)
    requires NoPrefix(a, p) && NoPrefix(b, p)
    ensures NoPrefix(a + b, p)
  {
  }

  /** Where a reader finds an option: the position of the first argument
      that starts with `prefix`, or `|args|` when there is none. */
  function FlagIndex(args: seq<string>, prefix: string): (k: nat)
    ensures k <= |args|
  {
    if args == [] then 0
    else if HasPrefix(args[0], prefix) then 0
    else 1 + FlagIndex(args[1..], prefix)
  }

  lemma {:induction false} FlagIndexSkips(a: seq<string>, b: seq<string>, prefix: string)
    requires NoPrefix(a, prefix)
    ensures FlagIndex(a + b, prefix) == |a| + FlagIndex(b, prefix)
  {
    if a != [] {
      assert (a + b)[1..] == a[1..] + b;
      FlagIndexSkips(a[1..], b, prefix);
    } else {
      assert a + b == b;
    }
  }

  /** Neither key is a prefix of the other. */
  predicate Apart(p: string, q: string) {
    !(p <= q) && !(q <= p)
  }

  /** No two fields share a key, nor does one key extend another. */
  predicate KeysApart(fs: seq<Field>) {
    forall i, j :: 0 <= i < |fs| && 0 <= j < |fs| && i != j ==> Apart(fs[i].key, fs[j].key)
  }

  /** An argument built on key `q` never starts with a key apart from `q`. */
  lemma ApartNoPrefix(q: string, value: string, p: string)
    requires Apart(q, p)
    ensures !HasPrefix(q + value, p)
  {
    var s := q + value;
    if |p| <= |s| {
      if |p| <= |q| {
        assert s[..|p|] == q[..|p|];
      } else {
        assert s[..|p|][..|q|] == q;
      }
    }
  }

  /** Fields whose keys are all apart from `p` produce no argument starting
      with `p`. */
  lemma {:induction false} FieldArgsOmit(fs: seq<Field>, p: string)
    requires forall i :: 0 <= i < |fs| ==> Apart(fs[i].key, p)
    ensures NoPrefix(FieldArgs(fs), p)
  {
    if fs != [] {
      FieldArgsOmit(fs[1..], p);
      if Emits(fs[0]) {
        ApartNoPrefix(fs[0].key, fs[0].value, p);
      }
      NoPrefixAppend(if Emits(fs[0]) then [fs[0].key + fs[0].value] else [], FieldArgs(fs[1..]), p);
    }
  }

  /** Dropping the first field keeps the keys apart. */
  lemma KeysApartTail(fs: seq<Field>)
    requires fs != [] && KeysApart(fs)
    ensures KeysApart(fs[1..])
    ensures forall i :: 0 <= i < |fs[1..]| ==> Apart(fs[1..][i].key, fs[0].key)
  {
    forall i, j | 0 <= i < |fs[1..]| && 0 <= j < |fs[1..]| && i != j
      ensures Apart(fs[1..][i].key, fs[1..][j].key)
    {
      assert fs[1..][i] == fs[i + 1] && fs[1..][j] == fs[j + 1];
    }
    forall i | 0 <= i < |fs[1..]|
      ensures Apart(fs[1..][i].key, fs[0].key)
    {
      assert fs[1..][i] == fs[i + 1];
    }
  }

  /** Reading field `j` back gives its value. When it produced an argument,
      that argument stands at `FlagIndex`; when it did not, no argument starts
      with its key (its value is then "", which is also what the reader
      gives). */
  lemma {:induction false} FieldArgsRead(fs: seq<Field>, j: nat)
    requires KeysApart(fs) && j < |fs|
    ensures FlagValue(FieldArgs(fs), fs[j].key) == fs[j].value
    ensures !Emits(fs[j]) <==> NoPrefix(FieldArgs(fs), fs[j].key)
    ensures Emits(fs[j]) ==>
              FlagIndex(FieldArgs(fs), fs[j].key) < |FieldArgs(fs)|
              && FieldArgs(fs)[FlagIndex(FieldArgs(fs), fs[j].key)] == fs[j].key + fs[j].value
  {
    var key := fs[j].key;
    var head := if Emits(fs[0]) then [fs[0].key + fs[0].value] else [];
    var rest := FieldArgs(fs[1..]);
    assert FieldArgs(fs) == head + rest;
    KeysApartTail(fs);
    if j == 0 {
      FieldArgsOmit(fs[1..], key);
      if Emits(fs[0]) {
        Prefixed(key, fs[0].value);
        assert (head + rest)[0] == key + fs[0].value;
      } else {
        assert head + rest == rest;
        FlagValueAbsent(rest, key);
      }
    } else {
      assert fs[1..][j - 1] == fs[j];
      FieldArgsRead(fs[1..], j - 1);
      if Emits(fs[0]) {
        ApartNoPrefix(fs[0].key, fs[0].value, key);
      }
      FlagValueSkips(head, rest, key);
      FlagIndexSkips(head, rest, key);
      if Emits(fs[j]) {
        Prefixed(key, fs[j].value);
        var k := FlagIndex(rest, key);
        assert (head + rest)[|head| + k] == rest[k];
        assert HasPrefix((head + rest)[|head| + k], key);
      } else {
        NoPrefixAppend(head, rest, key);
      }
    }
  }

  /** Fields come out in their order: an earlier field's argument stands
      before a later one's. */
  lemma {:induction false} FieldArgsOrder(fs: seq<Field>, i: nat, j: nat)
    requires KeysApart(fs) && i < j < |fs| && Emits(fs[i]) && Emits(fs[j])
    ensures FlagIndex(FieldArgs(fs), fs[i].key) < FlagIndex(FieldArgs(fs), fs[j].key)
  {
    var head := if Emits(fs[0]) then [fs[0].key + fs[0].value] else [];
    var rest := FieldArgs(fs[1..]);
    assert FieldArgs(fs) == head + rest;
    KeysApartTail(fs);
    if Emits(fs[0]) {
      ApartNoPrefix(fs[0].key, fs[0].value, fs[j].key);
    }
    FlagIndexSkips(head, rest, fs[j].key);
    if i == 0 {
      Prefixed(fs[0].key, fs[0].value);
      assert (head + rest)[0] == head[0];
    } else {
      assert fs[1..][i - 1] == fs[i] && fs[1..][j - 1] == fs[j];
      FieldArgsOrder(fs[1..], i - 1, j - 1);
      if Emits(fs[0]) {
        ApartNoPrefix(fs[0].key, fs[0].value, fs[i].key);
      }
      FlagIndexSkips(head, rest, fs[i].key);
    }
  }

  /** Two keys that differ at a position both have are apart. */
  lemma ApartAt(p: string, q: string, k: nat)
    requires k < |p| && k < |q| && p[k] != q[k]
    ensures Apart(p, q)
  {
  }

  /** The keys of the command line, in order. */
  const CommandKeys: seq<string> :=
    ["--url=", "--fileName=", "--outputDir=", "--selector=", "--proxy=", "--proxyUsername=", "--proxyPassword="]

  /** The seven keys are pairwise apart: all but the last two proxy keys
      differ at position 2, and the three proxy keys differ at position 7. */
  lemma CommandKeysDistinct()
    ensures forall i, j :: 0 <= i < |CommandKeys| && 0 <= j < |CommandKeys| && i != j ==>
              Apart(CommandKeys[i], CommandKeys[j])
  {
    forall i, j | 0 <= i < |CommandKeys| && 0 <= j < |CommandKeys| && i != j
      ensures Apart(CommandKeys[i], CommandKeys[j])
    {
      if i < 4 || j < 4 {
        ApartAt(CommandKeys[i], CommandKeys[j], 2);
      } else {
        ApartAt(CommandKeys[i], CommandKeys[j], 7);
      }
    }
  }

  lemma CommandKeysApart(opts: RenderOptions, url: string, fileName: string)
    ensures KeysApart(CommandFields(opts, url, fileName))
  {
    var fs := CommandFields(opts, url, fileName);
    assert forall i :: 0 <= i < |fs| ==> fs[i].key == CommandKeys[i];
    CommandKeysDistinct();
  }

  /** How many of `values` are non-empty. */
  function CountGiven(values: seq<string>): nat {
    if values == [] then 0 else (if values[0] != "" then 1 else 0) + CountGiven(values[1..])
  }

  /** The arguments after the script path, and their fields. */
  lemma CommandArgs(opts: RenderOptions, url: string, fileName: string)
    ensures Command(opts, url, fileName)[2..] == FieldArgs(CommandFields(opts, url, fileName))
    ensures KeysApart(CommandFields(opts, url, fileName))
    ensures var fs := CommandFields(opts, url, fileName);
            && |fs| == 7
            && fs[0] == Field("--url=", url, true)
            && fs[1] == Field("--fileName=", fileName, true)
            && fs[2] == Field("--outputDir=", opts.outputDir, true)
            && forall i :: 0 <= i < 4 ==> fs[i + 3] == Field(OptionKeys[i], OptionValues(opts)[i], false)
  {
    CommandKeysApart(opts, url, fileName);
  }

  /** The command line carries its options faithfully: reading each flag back
      from the arguments after `node` and the script gives the url, the file
      name, the output directory and exactly the selector and proxy settings
      that were given, and an option not given leaves no argument at all. */
  lemma CommandRoundTrip(opts: RenderOptions, url: string, fileName: string)
    ensures var args := Command(opts, url, fileName)[2..];
            && FlagValue(args, "--url=") == url
            && FlagValue(args, "--fileName=") == fileName
            && FlagValue(args, "--outputDir=") == opts.outputDir
            && forall i :: 0 <= i < 4 ==>
                 && FlagValue(args, OptionKeys[i]) == OptionValues(opts)[i]
                 && (OptionValues(opts)[i] == "" <==> NoPrefix(args, OptionKeys[i]))
  {
    var fs := CommandFields(opts, url, fileName);
    CommandArgs(opts, url, fileName);
    FieldArgsRead(fs, 0);
    FieldArgsRead(fs, 1);
    FieldArgsRead(fs, 2);
    forall i | 0 <= i < 4
      ensures FlagValue(FieldArgs(fs), OptionKeys[i]) == OptionValues(opts)[i]
      ensures OptionValues(opts)[i] == "" <==> NoPrefix(FieldArgs(fs), OptionKeys[i])
    {
      FieldArgsRead(fs, i + 3);
    }
  }

  lemma {:induction false} FieldArgsAppend(a: seq<Field>, b: seq<Field>)
    ensures FieldArgs(a + b) == FieldArgs(a) + FieldArgs(b)
  {
    if a != [] {
      assert (a + b)[0] == a[0] && (a + b)[1..] == a[1..] + b;
      FieldArgsAppend(a[1..], b);
    } else {
      assert a + b == b;
    }
  }

  /** Optional fields produce one argument per non-empty value. */
  lemma {:induction false} OptionArgsCount(keys: seq<string>, values: seq<string>)
    requires |keys| == |values|
    ensures |FieldArgs(OptionFields(keys, values))| == CountGiven(values)
  {
    if values != [] {
      var fs := OptionFields(keys, values);
      assert fs[1..] == OptionFields(keys[1..], values[1..]);
      OptionArgsCount(keys[1..], values[1..]);
    }
  }

  /** The command starts with `node` and the script, and has five arguments
      plus one per option given. */
  lemma CommandShape(opts: RenderOptions, url: string, fileName: string)
    ensures Command(opts, url, fileName)[..2] == ["node", opts.scriptPath]
    ensures |Command(opts, url, fileName)| == 5 + CountGiven(OptionValues(opts))
  {
    var fixed := [Field("--url=", url, true), Field("--fileName=", fileName, true), Field("--outputDir=", opts.outputDir, true)];
    FieldArgsAppend(fixed, OptionFields(OptionKeys, OptionValues(opts)));
    assert fixed[1..][1..][1..] == [];
    assert |FieldArgs(fixed[1..][1..])| == 1;
    assert |FieldArgs(fixed)| == 3;
    OptionArgsCount(OptionKeys, OptionValues(opts));
  }

  /** Fields that are always present sit at their own positions. */
  lemma {:induction false} FieldArgsIndex(fs: seq<Field>, j: nat)
    requires KeysApart(fs) && j < |fs|
    requires forall i :: 0 <= i <= j ==> fs[i].always
    ensures FlagIndex(FieldArgs(fs), fs[j].key) == j
  {
    var head := [fs[0].key + fs[0].value];
    var rest := FieldArgs(fs[1..]);
    assert FieldArgs(fs) == head + rest;
    if j == 0 {
      Prefixed(fs[0].key, fs[0].value);
      assert (head + rest)[0] == head[0];
    } else {
      KeysApartTail(fs);
      assert fs[1..][j - 1] == fs[j];
      FieldArgsIndex(fs[1..], j - 1);
      ApartNoPrefix(fs[0].key, fs[0].value, fs[j].key);
      FlagIndexSkips(head, rest, fs[j].key);
    }
  }

  /** The options come out in a fixed order: `--url=`, `--fileName=` and
      `--outputDir=` first, in that order, then every selector or proxy flag
      that was given. */
  lemma CommandOrder(opts: RenderOptions, url: string, fileName: string)
    ensures var args := Command(opts, url, fileName)[2..];
            && FlagIndex(args, "--url=") == 0
            && FlagIndex(args, "--fileName=") == 1
            && FlagIndex(args, "--outputDir=") == 2
            && forall i :: 0 <= i < 4 && OptionValues(opts)[i] != "" ==> 2 < FlagIndex(args, OptionKeys[i]) < |args|
  {
    var fs := CommandFields(opts, url, fileName);
    CommandArgs(opts, url, fileName);
    FieldArgsIndex(fs, 0);
    FieldArgsIndex(fs, 1);
    FieldArgsIndex(fs, 2);
    forall i | 0 <= i < 4 && OptionValues(opts)[i] != ""
      ensures 2 < FlagIndex(FieldArgs(fs), OptionKeys[i]) < |FieldArgs(fs)|
    {
      FieldArgsOrder(fs, 2, i + 3);
      FieldArgsRead(fs, i + 3);
    }
  }

  /** The selector and proxy flags that were given come out in the order of
      `OptionKeys`. */
  lemma CommandOptionOrder(opts: RenderOptions, url: string, fileName: string)
    ensures var args := Command(opts, url, fileName)[2..];
            forall i, j :: 0 <= i < j < 4 && OptionValues(opts)[i] != "" && OptionValues(opts)[j] != "" ==>
              FlagIndex(args, OptionKeys[i]) < FlagIndex(args, OptionKeys[j])
  {
    var fs := CommandFields(opts, url, fileName);
    CommandArgs(opts, url, fileName);
    forall i, j | 0 <= i < j < 4 && OptionValues(opts)[i] != "" && OptionValues(opts)[j] != ""
      ensures FlagIndex(FieldArgs(fs), OptionKeys[i]) < FlagIndex(FieldArgs(fs), OptionKeys[j])
    {
      FieldArgsOrder(fs, i + 3, j + 3);
    }
  }

  function Pow2(n: nat): (r: nat)
    ensures r >= 1
  {
    if n == 0 then 1 else 2 * Pow2(n - 1)
  }

  /** The waits after failed attempts 0, 1, ..., n-1: 1, 2, 4, ... seconds. */
  function Backoff(n: nat): (w: seq<nat>)
    ensures |w| == n
    ensures forall a :: 0 <= a < n ==> w[a] == Pow2(a)
  {
    seq(n, a requires 0 <= a => Pow2(a))
  }

  function Sum(w: seq<nat>): nat {
    if w == [] then 0 else Sum(w[..|w| - 1]) + w[|w| - 1]
  }

  /** Before its k-th attempt the driver has slept 2^k - 1 seconds in all. */
  lemma {:induction false} BackoffTotal(n: nat)
    ensures Sum(Backoff(n)) == Pow2(n) - 1
  {
    if n > 0 {
      BackoffTotal(n - 1);
      assert Backoff(n)[..n - 1] == Backoff(n - 1);
    }
  }

  /** The attempt at which `run_node_save` stops when it looks from attempt
      `a` on: the first that succeeds, or the last one allowed. */
  function StopAttempt(cmd: seq<string>, render: Renderer, a: nat, last: nat): nat
    requires a <= last
    decreases last - a
  {
    if a == last || Succeeded(render(cmd, a)) then a else StopAttempt(cmd, render, a + 1, last)
  }

  /** The stopping attempt lies between `a` and `last`, every attempt before
      it failed, and it succeeded unless it is the last one allowed. */
  lemma {:induction false} StopAttemptSpec(cmd: seq<string>, render: Renderer, a: nat, last: nat)
    requires a <= last
    ensures var r := StopAttempt(cmd, render, a, last);
            && a <= r <= last
            && (forall b :: a <= b < r ==> !Succeeded(render(cmd, b)))
            && (r < last ==> Succeeded(render(cmd, r)))
    decreases last - a
  {
    if a < last && !Succeeded(render(cmd, a)) {
      StopAttemptSpec(cmd, render, a + 1, last);
    }
  }

  /** Conversely, an attempt `k` that is the last one or succeeds, after
      only failures from `a` on, is where the driver stops. */
  lemma {:induction false} StopAttemptIs(cmd: seq<string>, render: Renderer, a: nat, last: nat, k: nat)
    requires a <= k <= last
    requires forall b :: a <= b < k ==> !Succeeded(render(cmd, b))
    requires k == last || Succeeded(render(cmd, k))
    ensures StopAttempt(cmd, render, a, last) == k
    decreases k - a
  {
    if a < k {
      StopAttemptIs(cmd, render, a + 1, last, k);
    }
  }

  /** `run_node_save`: up to `maxRetries + 1` runs of the same command,
      stopping at the first that exits 0 and leaves the file, sleeping 2^a
      seconds after a failed attempt a that is not the last. */
  method RunNodeSave(url: string, fileName: string, opts: RenderOptions, render: Renderer)
    returns (code: int, attempts: nat, waits: seq<nat>)
    requires opts.maxRetries >= 0
    ensures 1 <= attempts <= opts.maxRetries + 1
    ensures var cmd := Command(opts, url, fileName);
            forall a :: 0 <= a < attempts - 1 ==> !Succeeded(render(cmd, a))
    ensures var cmd := Command(opts, url, fileName);
            code == 0 <==> Succeeded(render(cmd, attempts - 1))
    ensures var cmd := Command(opts, url, fileName);
            code == 0 <==> exists a :: 0 <= a <= opts.maxRetries && Succeeded(render(cmd, a))
    ensures attempts <= opts.maxRetries ==> code == 0
    ensures var last := render(Command(opts, url, fileName), attempts - 1);
            code != 0 ==> code == if last.exitCode == 0 then 1 else last.exitCode
    ensures attempts - 1 == StopAttempt(Command(opts, url, fileName), render, 0, opts.maxRetries)
    ensures waits == Backoff(attempts - 1)
  {
    var cmd := Command(opts, url, fileName);
    waits := [];
    attempts := 0;
    var attempt := 0;
    while attempt < opts.maxRetries + 1
      invariant 0 <= attempt <= opts.maxRetries
      invariant attempts == attempt
      invariant forall a :: 0 <= a < attempt ==> !Succeeded(render(cmd, a))
      invariant waits == Backoff(attempt)
    {
      var proc := render(cmd, attempt);
      attempts := attempts + 1;
      if proc.exitCode == 0 {
        if proc.fileExists {
          code := 0;
          StopAttemptIs(cmd, render, 0, opts.maxRetries, attempt);
          return;
        } else if attempt < opts.maxRetries {
          waits := waits + [Pow2(attempt)];
          attempt := attempt + 1;
          continue;
        } else {
          code := 1;
          StopAttemptIs(cmd, render, 0, opts.maxRetries, attempt);
          return;
        }
      } else {
        if attempt < opts.maxRetries {
          waits := waits + [Pow2(attempt)];
        } else {
          code := proc.exitCode;
          StopAttemptIs(cmd, render, 0, opts.maxRetries, attempt);
          return;
        }
      }
      attempt := attempt + 1;
    }
    assert false;
  }

  /** `base_url.rstrip('/') + '/' + url`: every trailing slash of the base is
      replaced by exactly one, so a url that itself starts with `/` gives a
      double slash. */
  function JoinUrl(baseUrl: string, url: string): string {
    RStripChars(baseUrl, {'/'}) + "/" + url
  }

  lemma JoinUrlSpec(baseUrl: string, url: string)
    ensures var r := JoinUrl(baseUrl, url);
            && |r| > |url|
            && var b := r[..|r| - |url| - 1];
            && r == b + "/" + url
            && b <= baseUrl
            && (b == [] || b[|b| - 1] != '/')
            && (forall i :: |b| <= i < |baseUrl| ==> baseUrl[i] == '/')
            && (url != [] && url[0] == '/' ==> r[|b|..|b| + 2] == "//")
  {
    var b := RStripChars(baseUrl, {'/'});
    RStripCharsSpec(baseUrl, {'/'});
    var r := JoinUrl(baseUrl, url);
    assert r[..|r| - |url| - 1] == b;
  }

  /** The outcome of one link in `main`. */
  datatype Status = Saved | Failed | Skipped

  function CountStatus(statuses: seq<Status>, s: Status): nat {
    if statuses == [] then 0
    else CountStatus(statuses[..|statuses| - 1], s) + (if statuses[|statuses| - 1] == s then 1 else 0)
  }

  /** Where `main` looks for, and the renderer writes, a link's PDF. */
  function PdfPath(opts: RenderOptions, link: Link): string {
    PathJoin(opts.outputDir, link.fileName)
  }

  /** The command `run_node_save` runs for a link. */
  function LinkCommand(baseUrl: string, opts: RenderOptions, link: Link): seq<string> {
    Command(opts, JoinUrl(baseUrl, link.url), link.fileName)
  }

  /** Some attempt the driver may make for `link` succeeds. */
  predicate CanSucceed(baseUrl: string, opts: RenderOptions, render: Renderer, link: Link) {
    exists a :: 0 <= a <= opts.maxRetries && Succeeded(render(LinkCommand(baseUrl, opts, link), a))
  }

  /** The positions of the links that were handed to the renderer. */
  function Rendered(statuses: seq<Status>): seq<nat> {
    if statuses == [] then []
    else
      var n := |statuses| - 1;
      Rendered(statuses[..n]) + (if statuses[n] != Skipped then [n] else [])
  }

  /** The rendered positions are in increasing order and name exactly the
      links that were not skipped. */
  lemma {:induction false} RenderedSpec(statuses: seq<Status>)
    ensures forall k, l :: 0 <= k < l < |Rendered(statuses)| ==> Rendered(statuses)[k] < Rendered(statuses)[l]
    ensures forall k :: 0 <= k < |Rendered(statuses)| ==> Rendered(statuses)[k] < |statuses|
    ensures forall i :: 0 <= i < |statuses| ==> (i in Rendered(statuses) <==> statuses[i] != Skipped)
  {
    if statuses != [] {
      var n := |statuses| - 1;
      var prev := Rendered(statuses[..n]);
      var last: seq<nat> := if statuses[n] != Skipped then [n] else [];
      var r := Rendered(statuses);
      RenderedSpec(statuses[..n]);
      assert r == prev + last;
      forall k | 0 <= k < |r|
        ensures r[k] < |statuses|
        ensures k < |prev| ==> r[k] == prev[k] < n
        ensures k >= |prev| ==> r[k] == n
      {
      }
      forall i | 0 <= i < |statuses|
        ensures i in r <==> statuses[i] != Skipped
      {
        assert i in r <==> i in prev || i in last;
        if i < n {
          assert statuses[..n][i] == statuses[i];
        }
      }
    }
  }

  /** One more status adds one to its own count and, unless it is a skip,
      its position to the rendered ones. */
  lemma TallyStep(statuses: seq<Status>, st: Status)
    ensures CountStatus(statuses + [st], Saved) == CountStatus(statuses, Saved) + (if st == Saved then 1 else 0)
    ensures CountStatus(statuses + [st], Failed) == CountStatus(statuses, Failed) + (if st == Failed then 1 else 0)
    ensures CountStatus(statuses + [st], Skipped) == CountStatus(statuses, Skipped) + (if st == Skipped then 1 else 0)
    ensures Rendered(statuses + [st]) == Rendered(statuses) + (if st != Skipped then [|statuses|] else [])
  {
    CountStatusSnoc(statuses, st, Saved);
    CountStatusSnoc(statuses, st, Failed);
    CountStatusSnoc(statuses, st, Skipped);
    assert (statuses + [st])[..|statuses|] == statuses;
  }

  lemma CountStatusSnoc(statuses: seq<Status>, st: Status, s: Status)
    ensures CountStatus(statuses + [st], s) == CountStatus(statuses, s) + (if st == s then 1 else 0)
  {
    assert (statuses + [st])[..|statuses|] == statuses;
  }

  /** What one turn of the loop of `main` leaves: the link's status and the
      filesystem afterwards. */
  datatype Visited = Visited(status: Status, fs: set<string>)

  /** One turn of the loop of `main` on the filesystem `fs`: skip the link
      when its PDF is there, otherwise hand it to `run_node_save`, which stops
      at `StopAttempt`; the PDF is there afterwards exactly when that last
      attempt left it. */
  function Visit(baseUrl: string, opts: RenderOptions, render: Renderer, fs: set<string>, link: Link): Visited
    requires opts.maxRetries >= 0
  {
    var path := PdfPath(opts, link);
    if path in fs then Visited(Skipped, fs)
    else
      var cmd := LinkCommand(baseUrl, opts, link);
      var last := render(cmd, StopAttempt(cmd, render, 0, opts.maxRetries));
      Visited(if Succeeded(last) then Saved else Failed, if last.fileExists then fs + {path} else fs)
  }

  /** A link whose PDF is there is skipped and changes nothing; any other link
      is saved exactly when some allowed attempt succeeds, and at most its own
      PDF is added, always when it is saved. */
  lemma VisitSpec(baseUrl: string, opts: RenderOptions, render: Renderer, fs: set<string>, link: Link)
    requires opts.maxRetries >= 0
    ensures var v := Visit(baseUrl, opts, render, fs, link);
            && (PdfPath(opts, link) in fs ==> v == Visited(Skipped, fs))
            && (PdfPath(opts, link) !in fs ==> v.status != Skipped)
            && (v.status != Skipped ==> (v.status == Saved <==> CanSucceed(baseUrl, opts, render, link)))
            && (v.fs == fs || v.fs == fs + {PdfPath(opts, link)})
            && (v.status == Saved ==> PdfPath(opts, link) in v.fs)
  {
    StopAttemptSpec(LinkCommand(baseUrl, opts, link), render, 0, opts.maxRetries);
  }

  /** The loop of `main` up to and including `links`: the statuses so far and
      the filesystem they leave. */
  datatype Run = Run(statuses: seq<Status>, fs: set<string>)

  function SaveRun(baseUrl: string, opts: RenderOptions, render: Renderer, existing: set<string>, links: seq<Link>): (r: Run)
    requires opts.maxRetries >= 0
    ensures |r.statuses| == |links|
  {
    if links == [] then Run([], existing)
    else
      var n := |links| - 1;
      var before := SaveRun(baseUrl, opts, render, existing, links[..n]);
      var v := Visit(baseUrl, opts, render, before.fs, links[n]);
      Run(before.statuses + [v.status], v.fs)
  }

  /** A run over a prefix of the links is a prefix of the whole run, and the
      filesystem only grows. */
  lemma {:induction false} SaveRunPrefix(baseUrl: string, opts: RenderOptions, render: Renderer,
                                         existing: set<string>, links: seq<Link>, k: nat)
    requires opts.maxRetries >= 0
    requires k <= |links|
    ensures SaveRun(baseUrl, opts, render, existing, links[..k]).statuses
            == SaveRun(baseUrl, opts, render, existing, links).statuses[..k]
    ensures SaveRun(baseUrl, opts, render, existing, links[..k]).fs
            <= SaveRun(baseUrl, opts, render, existing, links).fs
    decreases |links|
  {
    if k < |links| {
      var n := |links| - 1;
      assert links[..n][..k] == links[..k];
      SaveRunPrefix(baseUrl, opts, render, existing, links[..n], k);
    } else {
      assert links[..k] == links;
    }
  }

  /** Link `j` meets the filesystem left by the links before it. */
  lemma SaveRunAt(baseUrl: string, opts: RenderOptions, render: Renderer,
                  existing: set<string>, links: seq<Link>, j: nat)
    requires opts.maxRetries >= 0
    requires j < |links|
    ensures var v := Visit(baseUrl, opts, render, SaveRun(baseUrl, opts, render, existing, links[..j]).fs, links[j]);
            && SaveRun(baseUrl, opts, render, existing, links).statuses[j] == v.status
            && v.fs <= SaveRun(baseUrl, opts, render, existing, links).fs
  {
    SaveRunPrefix(baseUrl, opts, render, existing, links, j + 1);
    assert links[..j + 1][..j] == links[..j];
  }

  /** The filesystem only grows, and every new path is the PDF of a link that
      was not skipped. */
  lemma {:induction false} SaveRunNewPaths(baseUrl: string, opts: RenderOptions, render: Renderer,
                                           existing: set<string>, links: seq<Link>)
    requires opts.maxRetries >= 0
    ensures var r := SaveRun(baseUrl, opts, render, existing, links);
            && existing <= r.fs
            && forall p :: p in r.fs && p !in existing ==>
                 exists i :: 0 <= i < |links| && r.statuses[i] != Skipped && p == PdfPath(opts, links[i])
  {
    if links != [] {
      var n := |links| - 1;
      SaveRunNewPaths(baseUrl, opts, render, existing, links[..n]);
      var r := SaveRun(baseUrl, opts, render, existing, links);
      var before := SaveRun(baseUrl, opts, render, existing, links[..n]);
      forall p | p in r.fs && p !in existing
        ensures exists i :: 0 <= i < |links| && r.statuses[i] != Skipped && p == PdfPath(opts, links[i])
      {
        if p in before.fs {
          var i :| 0 <= i < n && before.statuses[i] != Skipped && p == PdfPath(opts, links[..n][i]);
          assert r.statuses[i] == before.statuses[i];
        } else {
          VisitSpec(baseUrl, opts, render, before.fs, links[n]);
          assert r.statuses[n] != Skipped && p == PdfPath(opts, links[n]);
        }
      }
    }
  }

  /** What the loop of `main` promises about each link: a PDF already on disk,
      or saved by an earlier link, is skipped; a link that is not skipped is
      saved exactly when some allowed attempt succeeds; every link not counted
      as failed has its PDF on disk afterwards. */
  lemma SaveRunSpec(baseUrl: string, opts: RenderOptions, render: Renderer,
                    existing: set<string>, links: seq<Link>)
    requires opts.maxRetries >= 0
    ensures var r := SaveRun(baseUrl, opts, render, existing, links);
            forall i :: 0 <= i < |links| && PdfPath(opts, links[i]) in existing ==> r.statuses[i] == Skipped
    ensures var r := SaveRun(baseUrl, opts, render, existing, links);
            forall j, i :: (0 <= j < i < |links| && r.statuses[j] == Saved &&
                            PdfPath(opts, links[j]) == PdfPath(opts, links[i])) ==> r.statuses[i] == Skipped
    ensures var r := SaveRun(baseUrl, opts, render, existing, links);
            forall i :: 0 <= i < |links| && r.statuses[i] != Skipped ==>
              (r.statuses[i] == Saved <==> CanSucceed(baseUrl, opts, render, links[i]))
    ensures var r := SaveRun(baseUrl, opts, render, existing, links);
            forall i :: 0 <= i < |links| && r.statuses[i] != Failed ==> PdfPath(opts, links[i]) in r.fs
  {
    var r := SaveRun(baseUrl, opts, render, existing, links);
    forall i | 0 <= i < |links|
      ensures PdfPath(opts, links[i]) in existing ==> r.statuses[i] == Skipped
      ensures r.statuses[i] != Skipped ==>
                (r.statuses[i] == Saved <==> CanSucceed(baseUrl, opts, render, links[i]))
      ensures r.statuses[i] != Failed ==> PdfPath(opts, links[i]) in r.fs
    {
      SaveRunAt(baseUrl, opts, render, existing, links, i);
      VisitSpec(baseUrl, opts, render, SaveRun(baseUrl, opts, render, existing, links[..i]).fs, links[i]);
      SaveRunNewPaths(baseUrl, opts, render, existing, links[..i]);
    }
    forall j, i | 0 <= j < i < |links| && r.statuses[j] == Saved &&
                  PdfPath(opts, links[j]) == PdfPath(opts, links[i])
      ensures r.statuses[i] == Skipped
    {
      SaveRunAt(baseUrl, opts, render, existing, links, j);
      SaveRunAt(baseUrl, opts, render, existing, links[..i], j);
      assert links[..i][..j] == links[..j];
      SaveRunPrefix(baseUrl, opts, render, existing, links[..i], j + 1);
      SaveRunAt(baseUrl, opts, render, existing, links, i);
      VisitSpec(baseUrl, opts, render, SaveRun(baseUrl, opts, render, existing, links[..j]).fs, links[j]);
      VisitSpec(baseUrl, opts, render, SaveRun(baseUrl, opts, render, existing, links[..i]).fs, links[i]);
    }
  }

  /** One turn of the loop of `main`. */
  method SaveLink(baseUrl: string, link: Link, opts: RenderOptions, fs: set<string>, render: Renderer)
    returns (status: Status, fs': set<string>)
    requires opts.maxRetries >= 0
    ensures Visited(status, fs') == Visit(baseUrl, opts, render, fs, link)
  {
    var fullUrl := JoinUrl(baseUrl, link.url);
    var pdfPath := PathJoin(opts.outputDir, link.fileName);
    fs' := fs;
    if pdfPath in fs {
      status := Skipped;
    } else {
      var code, attempts, waits := RunNodeSave(fullUrl, link.fileName, opts, render);
      if render(Command(opts, fullUrl, link.fileName), attempts - 1).fileExists {
        fs' := fs + {pdfPath};
      }
      status := if code == 0 then Saved else Failed;
    }
  }

  /** The loop of `main`: visit each link once, in order, and count the
      outcomes. `rendered` lists the positions of the links handed to the
      renderer; `existing'` is the filesystem afterwards. */
  method SaveAll(baseUrl: string, links: seq<Link>, opts: RenderOptions, existing: set<string>, render: Renderer)
    returns (success: nat, fail: nat, skipped: nat, statuses: seq<Status>, rendered: seq<nat>,
             existing': set<string>)
    requires opts.maxRetries >= 0
    ensures Run(statuses, existing') == SaveRun(baseUrl, opts, render, existing, links)
    ensures success == CountStatus(statuses, Saved)
    ensures fail == CountStatus(statuses, Failed)
    ensures skipped == CountStatus(statuses, Skipped)
    ensures success + fail + skipped == |links|
    ensures rendered == Rendered(statuses)
    ensures fail == 0 ==> forall i :: 0 <= i < |links| ==> PdfPath(opts, links[i]) in existing'
    ensures forall i :: 0 <= i < |links| && PdfPath(opts, links[i]) in existing ==> i !in rendered
  {
    success, fail, skipped := 0, 0, 0;
    statuses, rendered := [], [];
    existing' := existing;
    for i := 0 to |links|
      invariant Run(statuses, existing') == SaveRun(baseUrl, opts, render, existing, links[..i])
      invariant success == CountStatus(statuses, Saved)
      invariant fail == CountStatus(statuses, Failed)
      invariant skipped == CountStatus(statuses, Skipped)
      invariant success + fail + skipped == i
      invariant rendered == Rendered(statuses)
    {
      var status;
      status, existing' := SaveLink(baseUrl, links[i], opts, existing', render);
      TallyStep(statuses, status);
      match status {
        case Skipped => skipped := skipped + 1;
        case Saved => success := success + 1; rendered := rendered + [i];
        case Failed => fail := fail + 1; rendered := rendered + [i];
      }
      assert links[..i + 1][..i] == links[..i];
      statuses := statuses + [status];
    }
    assert links[..|links|] == links;
    SaveRunOutcome(baseUrl, opts, render, existing, links);
  }

  /** After a run without failures every link's PDF exists, and a link whose
      PDF existed beforehand is never handed to the renderer. */
  lemma SaveRunOutcome(baseUrl: string, opts: RenderOptions, render: Renderer, existing: set<string>, links: seq<Link>)
    requires opts.maxRetries >= 0
    ensures var r := SaveRun(baseUrl, opts, render, existing, links);
            && (CountStatus(r.statuses, Failed) == 0 ==>
                  forall i :: 0 <= i < |links| ==> PdfPath(opts, links[i]) in r.fs)
            && (forall i :: 0 <= i < |links| && PdfPath(opts, links[i]) in existing ==> i !in Rendered(r.statuses))
  {
    var r := SaveRun(baseUrl, opts, render, existing, links);
    CountStatusZero(r.statuses, Failed);
    SaveRunSpec(baseUrl, opts, render, existing, links);
    RenderedSpec(r.statuses);
  }

  /** Running the loop again on the filesystem it left skips every link that
      was not counted as failed; after a run without failures it renders
      nothing at all. */
  lemma RerunSkips(baseUrl: string, opts: RenderOptions, render: Renderer, existing: set<string>, links: seq<Link>)
    requires opts.maxRetries >= 0
    ensures var first := SaveRun(baseUrl, opts, render, existing, links);
            var second := SaveRun(baseUrl, opts, render, first.fs, links);
            && (forall i :: 0 <= i < |links| && first.statuses[i] != Failed ==> second.statuses[i] == Skipped)
            && (CountStatus(first.statuses, Failed) == 0 ==> Rendered(second.statuses) == [])
  {
    var first := SaveRun(baseUrl, opts, render, existing, links);
    var second := SaveRun(baseUrl, opts, render, first.fs, links);
    SaveRunSpec(baseUrl, opts, render, existing, links);
    SaveRunSpec(baseUrl, opts, render, first.fs, links);
    CountStatusZero(first.statuses, Failed);
    RenderedNone(second.statuses);
  }

  /** Nothing is rendered exactly when every link is skipped. */
  lemma {:induction false} RenderedNone(statuses: seq<Status>)
    ensures Rendered(statuses) == [] <==> forall i :: 0 <= i < |statuses| ==> statuses[i] == Skipped
  {
    if statuses != [] {
      var n := |statuses| - 1;
      RenderedNone(statuses[..n]);
      if Rendered(statuses) == [] {
        assert forall i :: 0 <= i < n ==> statuses[..n][i] == statuses[i];
      }
    }
  }

  lemma {:induction false} CountStatusZero(statuses: seq<Status>, s: Status)
    ensures CountStatus(statuses, s) == 0 <==> forall i :: 0 <= i < |statuses| ==> statuses[i] != s
  {
    if statuses != [] {
      CountStatusZero(statuses[..|statuses| - 1], s);
    }
  }

  /** `main` from the manifest on: stop with exit code 1 when the manifest
      could not be read or is empty, otherwise create the output directory and
      run the loop. */
  method SavePagesMain(input: JsonInput, opts: RenderOptions, existing: set<string>, render: Renderer)
    returns (exitCode: int, success: nat, fail: nat, skipped: nat)
    requires opts.maxRetries >= 0
    ensures exitCode == 0 || exitCode == 1
    ensures exitCode == 1 <==> !input.Parsed?
    ensures exitCode == 1 ==> success == fail == skipped == 0
    ensures exitCode == 0 ==> success + fail + skipped == |input.manifest.links|
    ensures exitCode == 0 ==>
              var r := SaveRun(input.manifest.baseUrl, opts, render, existing + {opts.outputDir}, input.manifest.links);
              && success == CountStatus(r.statuses, Saved)
              && fail == CountStatus(r.statuses, Failed)
              && skipped == CountStatus(r.statuses, Skipped)
  {
    if !input.Parsed? {
      return 1, 0, 0, 0;
    }
    var manifest := input.manifest;
    var dirs := existing + {opts.outputDir};
    var statuses, rendered, existing';
    success, fail, skipped, statuses, rendered, existing' :=
      SaveAll(manifest.baseUrl, manifest.links, opts, dirs, render);
    exitCode := 0;
  }
}
