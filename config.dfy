/** The wrapper's fixed configuration: the hashcat invocation it builds and the test that
    turns notifications off. Reading the environment and argv is not modelled; the
    values read are parameters. */
module Config {
  import opened Wrappers
  import Paths

  const EXEC: string := "hashcat"
  /** hashcat's workload profile, passed as `-w4`. */
  const WORKLOAD: string := "4"
  /** Seconds between two status lines hashcat prints. */
  const UPDATE_INTERVAL: nat := 10
  /** The file hashcat appends recovered hashes to, and the result tailer reads. */
  const OUT_FILE: string := Paths.Join(Paths.TMP_DIR, "hashcat.out")

  lemma OutFilePath()
    ensures OUT_FILE == "/tmp/hashcat.out"
  {
    assert Paths.TMP_DIR + "/" + "hashcat.out" == "/tmp/hashcat.out";
  }

  // ---------------------------------------------------------------------------
  // DISABLE_NTFY

  /** Python's `str.lower()` on one character, for the ASCII letters. */
  function LowerChar(c: char): char {
    if 'A' <= c <= 'Z' then (c as int + 32) as char else c
  }

  function Lower(s: string): (r: string)
    ensures |r| == |s|
    ensures forall i :: 0 <= i < |s| ==> r[i] == LowerChar(s[i])
  {
    seq(|s|, i requires 0 <= i < |s| => LowerChar(s[i]))
  }

  /** `os.environ.get("DISABLE_NTFY", "").lower() == "true"`: `env` is the variable's
      value, `None` when it is unset. */
  predicate NotificationsDisabled(env: Option<string>)
    ensures NotificationsDisabled(env) ==> env.Some? && |env.value| == 4
  {
    Lower(env.GetOr("")) == "true"
  }

  /** Notifications are off exactly when the variable is set to "true" in any mix of
      upper and lower case; unset, empty or any other value leaves them on. */
  lemma NotificationsDisabledIff(env: Option<string>)
    ensures NotificationsDisabled(env) <==>
      env.Some? && |env.value| == 4 &&
      forall i :: 0 <= i < 4 ==> env.value[i] == "true"[i] || env.value[i] == "TRUE"[i]
  {
    var v := env.GetOr("");
    var l := Lower(v);
    if |v| == 4 {
      forall i | 0 <= i < 4
        ensures l[i] == "true"[i] <==> v[i] == "true"[i] || v[i] == "TRUE"[i]
      {
      }
      assert l == "true" <==> forall i :: 0 <= i < 4 ==> l[i] == "true"[i];
    }
  }

  // ---------------------------------------------------------------------------
  // The hashcat command

  function Digit(d: nat): char
    requires d < 10
  {
    "0123456789"[d]
  }

  /** Python's `str(n)` for a natural number. */
  function Decimal(n: nat): (r: string)
    ensures |r| >= 1
    ensures forall i :: 0 <= i < |r| ==> '0' <= r[i] <= '9'
  {
    if n < 10 then [Digit(n)] else Decimal(n / 10) + [Digit(n % 10)]
  }

  /** The number a string of decimal digits denotes (hashcat's reading of
      `--status-timer=<n>`). */
  function DecimalValue(s: string): nat
    requires forall i :: 0 <= i < |s| ==> '0' <= s[i] <= '9'
  {
    if s == [] then 0 else 10 * DecimalValue(s[..|s| - 1]) + (s[|s| - 1] as int - '0' as int)
  }

  /** Formatting a number and reading it back gives the number again. */
  lemma {:induction false} DecimalRoundTrip(n: nat)
    ensures DecimalValue(Decimal(n)) == n
  {
    if n >= 10 {
      var r := Decimal(n);
      var d := n % 10;
      assert r == Decimal(n / 10) + [Digit(d)];
      assert r[..|r| - 1] == Decimal(n / 10);
      assert r[|r| - 1] as int - '0' as int == d;
      DecimalRoundTrip(n / 10);
    }
  }

  /** The fixed status options (`STATUS`), in the order the source writes them. */
  function StatusOptions(): (r: seq<string>)
    ensures r == ["--quiet", "--status", "--status-json", "--status-timer=10",
                  "--outfile", "/tmp/hashcat.out"]
  {
    StatusTimerValue();
    OutFilePath();
    ["--quiet", "--status", "--status-json", "--status-timer=" + Decimal(UPDATE_INTERVAL),
     "--outfile", OUT_FILE]
  }

  /** `shlex.split(f"{EXEC} -w{WORKLOAD} {STATUS} {HASH_TARGET} {HASHCAT_ATTACK}")`, with
      the target and the attack parameters already split into tokens: eight fixed tokens,
      then the target tokens, then the attack tokens, each passed through unchanged. */
  function Command(target: seq<string>, attack: seq<string>): (r: seq<string>)
    ensures |r| == 8 + |target| + |attack|
    ensures r[8..8 + |target|] == target && r[8 + |target|..] == attack
  {
    var r := [EXEC, "-w" + WORKLOAD] + StatusOptions() + target + attack;
    assert r[8..] == target + attack;
    r
  }

  /** No token at an index in [lo, hi) of `cmd` is `flag`. */
  predicate FlagAbsent(cmd: seq<string>, flag: string, lo: int, hi: int) {
    forall j :: lo <= j < hi && 0 <= j < |cmd| ==> cmd[j] != flag
  }

  /** The value the last `flag` in `cmd` is given (a later option overrides an earlier
      one): the token after the last `flag` that has a token after it. */
  function LastValue(cmd: seq<string>, flag: string): (r: Option<string>)
    ensures r.Some? ==>
      exists i :: 0 <= i < |cmd| - 1 && cmd[i] == flag && cmd[i + 1] == r.value &&
        FlagAbsent(cmd, flag, i + 1, |cmd| - 1)
    ensures r.None? ==> FlagAbsent(cmd, flag, 0, |cmd| - 1)
  {
    if |cmd| < 2 then None
    else if cmd[|cmd| - 2] == flag then Some(cmd[|cmd| - 1])
    else LastValue(cmd[..|cmd| - 1], flag)
  }

  /** Tokens appended after the last occurrence of `flag` that hold no `flag` do not
      change its value. */
  lemma {:induction false} LastValueAppend(p: seq<string>, q: seq<string>, flag: string)
    requires |p| >= 1 && p[|p| - 1] != flag && flag !in q
    ensures LastValue(p + q, flag) == LastValue(p, flag)
  {
    if q != [] {
      var c := p + q;
      var q' := q[..|q| - 1];
      assert c[..|c| - 1] == p + q';
      assert c[|c| - 2] != flag by {
        if |q| >= 2 {
          assert c[|c| - 2] == q[|q| - 2];
        } else {
          assert c[|c| - 2] == p[|p| - 1];
        }
      }
      assert LastValue(c, flag) == LastValue(p + q', flag);
      assert flag !in q' by {
        assert forall x :: x in q' ==> x in q;
      }
      LastValueAppend(p, q', flag);
    } else {
      assert p + q == p;
    }
  }

  /** The last `--outfile <path>` pair of the command names the file the result tailer
      watches, as long as the user's own tokens hold no `--outfile` token. hashcat's other
      spellings of the option (`-o <path>`, `--outfile=<path>`) are not covered. */
  lemma CommandWritesOutFile(target: seq<string>, attack: seq<string>)
    requires "--outfile" !in target && "--outfile" !in attack
    ensures LastValue(Command(target, attack), "--outfile") == Some(OUT_FILE)
  {
    OutFilePath();
    var prefix := [EXEC, "-w" + WORKLOAD] + StatusOptions();
    assert prefix[6] == "--outfile" && prefix[7] == OUT_FILE && |prefix| == 8;
    assert LastValue(prefix, "--outfile") == Some(OUT_FILE);
    assert "--outfile" !in target + attack by {
      assert forall x :: x in target + attack ==> x in target || x in attack;
    }
    assert Command(target, attack) == prefix + (target + attack);
    LastValueAppend(prefix, target + attack, "--outfile");
  }

  /** The command starts with the binary and the workload, then asks quietly for JSON
      status lines every 10 seconds and for the recovered hashes in "/tmp/hashcat.out",
      and ends with the target and the attack tokens in that order. */
  lemma CommandLayout(target: seq<string>, attack: seq<string>)
    ensures var cmd := Command(target, attack);
      |cmd| == 8 + |target| + |attack| &&
      cmd[..8] == ["hashcat", "-w4", "--quiet", "--status", "--status-json",
                   "--status-timer=10", "--outfile", "/tmp/hashcat.out"] &&
      cmd[8..8 + |target|] == target && cmd[8 + |target|..] == attack
  {
    var cmd := Command(target, attack);
    var fixed := [EXEC, "-w" + WORKLOAD] + StatusOptions();
    assert "-w" + WORKLOAD == "-w4";
    assert fixed == ["hashcat", "-w4", "--quiet", "--status", "--status-json",
                     "--status-timer=10", "--outfile", "/tmp/hashcat.out"];
    assert cmd == fixed + (target + attack);
    assert cmd[..8] == fixed;
  }

  /** The status timer hashcat is given reads back as UPDATE_INTERVAL. */
  lemma StatusTimerValue()
    ensures "--status-timer=" + Decimal(UPDATE_INTERVAL) == "--status-timer=10"
    ensures DecimalValue(Decimal(UPDATE_INTERVAL)) == UPDATE_INTERVAL
  {
    DecimalRoundTrip(UPDATE_INTERVAL);
    assert Decimal(10) == Decimal(1) + [Digit(0)] == "10";
  }
}
