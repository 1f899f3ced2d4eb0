/**
 * The EC2 user-data of the game server: an ordered list of shell commands that set up
 * logging and strict mode, install the AWS CLI and unzip, download and unpack the
 * bootstrap bundle from S3, and run its `bootstrap.sh` with the deployment's settings
 * passed as environment assignments.
 */
module UserData {
  import opened Wrappers
  import opened Text

  /** An S3 asset: where CDK uploaded a local file or directory. */
  datatype Asset = Asset(s3BucketName: string, s3ObjectKey: string)

  datatype UserDataOptions = UserDataOptions(
    bootstrapAsset: Asset,
    downloaderZipAsset: Asset,
    backupBucketName: string,
    discordWebhookSecretArn: Option<string>,
    dataVolumeSizeGib: Option<int>)

  const BootstrapDir := "/var/tmp/hytale-bootstrap"
  const BootstrapZip := BootstrapDir + "/bootstrap.zip"
  const BootstrapScript := BootstrapDir + "/bootstrap.sh"

  const LogRedirect := "exec > >(tee /var/log/user-data.log | logger -t user-data -s 2>/dev/console) 2>&1"
  const StrictMode := "set -euxo pipefail"
  const InstallTools := "dnf install -y --allowerasing awscli unzip"
  const MakeBootstrapDir := "mkdir -p " + BootstrapDir
  const Unpack := "unzip -o " + BootstrapZip + " -d " + BootstrapDir
  const MakeExecutable := "chmod +x " + BootstrapScript
  const RunBootstrap := "bash " + BootstrapScript

  /** The S3 URL of an asset. */
  function S3Url(a: Asset): string { "s3://" + a.s3BucketName + "/" + a.s3ObjectKey }

  function Download(a: Asset): string { "aws s3 cp " + S3Url(a) + " " + BootstrapZip }

  /** A shell assignment `NAME="value"`. */
  function Assign(name: string, value: string): string { name + "=\"" + value + "\"" }

  /** The variables handed to the bootstrap script, in the order they are written. */
  const LaunchNames: seq<string> := [
    "DOWNLOADER_ASSET_BUCKET", "DOWNLOADER_ASSET_KEY", "BACKUP_BUCKET_NAME",
    "DISCORD_WEBHOOK_SECRET_ARN", "DATA_VOLUME_SIZE_GIB"]

  /** Their values; an absent optional becomes the empty string (`x ?? ""`). */
  function LaunchValues(opts: UserDataOptions): (vs: seq<string>)
    ensures |vs| == |LaunchNames|
    ensures vs[..3] == [opts.downloaderZipAsset.s3BucketName, opts.downloaderZipAsset.s3ObjectKey, opts.backupBucketName]
    ensures vs[3] == "" <==> opts.discordWebhookSecretArn.None? || opts.discordWebhookSecretArn.value == ""
    ensures vs[4] == "" <==> opts.dataVolumeSizeGib.None?
    ensures opts.discordWebhookSecretArn.Some? ==> vs[3] == opts.discordWebhookSecretArn.value
    ensures opts.dataVolumeSizeGib.Some? ==> vs[4] == IntToString(opts.dataVolumeSizeGib.value)
  {
    [ opts.downloaderZipAsset.s3BucketName,
      opts.downloaderZipAsset.s3ObjectKey,
      opts.backupBucketName,
      opts.discordWebhookSecretArn.GetOr(""),
      if opts.dataVolumeSizeGib.Some? then IntToString(opts.dataVolumeSizeGib.value) else "" ]
  }

  /** The five `NAME="value"` words; each reads back as its variable and value. */
  function LaunchAssignments(opts: UserDataOptions): (ws: seq<string>)
    ensures |ws| == |LaunchNames|
    ensures forall k {:trigger ParseAssign(ws[k])} :: 0 <= k < |LaunchNames| ==>
      ParseAssign(ws[k]) == Some((LaunchNames[k], LaunchValues(opts)[k]))
  {
    AssignmentsReadBack(LaunchValues(opts));
    seq(|LaunchNames|, k requires 0 <= k < |LaunchNames| => Assign(LaunchNames[k], LaunchValues(opts)[k]))
  }

  /** The last command: the assignments and the script call, joined with single spaces. */
  function LaunchCommand(opts: UserDataOptions): (r: string)
    ensures |r| > |RunBootstrap| && r[|r| - |RunBootstrap| - 1..] == " " + RunBootstrap
  {
    JoinEndsWith(LaunchAssignments(opts), RunBootstrap, ' ');
    Join(LaunchAssignments(opts) + [RunBootstrap], ' ')
  }

  /** The command array of `addHytaleUserData`. */
  function HytaleCommands(opts: UserDataOptions): (cmds: seq<string>)
    ensures |cmds| == 8
  {
    [ LogRedirect,
      StrictMode,
      InstallTools,
      MakeBootstrapDir,
      Download(opts.bootstrapAsset),
      Unpack,
      MakeExecutable,
      LaunchCommand(opts) ]
  }

  /** `instance.userData.addCommands(...commands)`: the commands are appended in order, after what was there. */
  function AddHytaleUserData(userData: seq<string>, opts: UserDataOptions): (r: seq<string>)
    ensures |r| == |userData| + 8
    ensures r[..|userData|] == userData && r[|userData|..] == HytaleCommands(opts)
  {
    userData + HytaleCommands(opts)
  }

  // ---------------------------------------------------------------------------
  // Reading the commands back

  /** Splits `NAME="value"` into its name and its value. */
  function ParseAssign(word: string): Option<(string, string)> {
    var k := IndexOf(word, '=');
    if k == |word| then None
    else
      var rest := word[k + 1..];
      if |rest| >= 2 && rest[0] == '"' && rest[|rest| - 1] == '"' then Some((word[..k], rest[1..|rest| - 1]))
      else None
  }

  lemma ParseAssignRoundTrip(name: string, value: string)
    requires '=' !in name
    ensures ParseAssign(Assign(name, value)) == Some((name, value))
  {
    var w := Assign(name, value);
    assert w == name + ['='] + ("\"" + value + "\"");
    IndexOfCons(name, "\"" + value + "\"", '=');
    assert w[..|name|] == name;
    assert w[|name| + 1..] == "\"" + value + "\"";
  }

  /** Splits `s3://bucket/key` into bucket and key. */
  function ParseS3Url(url: string): Option<(string, string)> {
    if |url| >= 5 && url[..5] == "s3://" then
      var rest := url[5..];
      var k := IndexOf(rest, '/');
      if k == |rest| then None else Some((rest[..k], rest[k + 1..]))
    else None
  }

  /** The download names exactly the bootstrap asset's bucket and key (bucket names hold no '/'). */
  lemma S3UrlRoundTrip(a: Asset)
    requires '/' !in a.s3BucketName
    ensures ParseS3Url(S3Url(a)) == Some((a.s3BucketName, a.s3ObjectKey))
  {
    var url := S3Url(a);
    var rest := a.s3BucketName + ['/'] + a.s3ObjectKey;
    assert url == "s3://" + rest;
    assert url[..5] == "s3://" && url[5..] == rest;
    IndexOfCons(a.s3BucketName, a.s3ObjectKey, '/');
    assert rest[..|a.s3BucketName|] == a.s3BucketName;
    assert rest[|a.s3BucketName| + 1..] == a.s3ObjectKey;
  }

  predicate NoSpace(s: string) { ' ' !in s }

  /** Space-free words joined with single spaces split back into the words. */
  lemma SplitWord(a: string)
    requires NoSpace(a)
    ensures Split(a, ' ') == [a]
  {
    IndexOfAbsent(a, ' ');
  }

  lemma SplitWords2(a: string, b: string)
    requires NoSpace(a) && NoSpace(b)
    ensures Split(a + [' '] + b, ' ') == [a, b]
  {
    SplitWord(b);
    SplitCons(a, b, ' ');
  }

  lemma SplitWords3(a: string, b: string, c: string)
    requires NoSpace(a) && NoSpace(b) && NoSpace(c)
    ensures Split(a + [' '] + (b + [' '] + c), ' ') == [a, b, c]
  {
    SplitWords2(b, c);
    SplitCons(a, b + [' '] + c, ' ');
  }

  lemma SplitWords4(a: string, b: string, c: string, d: string)
    requires NoSpace(a) && NoSpace(b) && NoSpace(c) && NoSpace(d)
    ensures Split(a + [' '] + (b + [' '] + (c + [' '] + d)), ' ') == [a, b, c, d]
  {
    SplitWords3(b, c, d);
    SplitCons(a, b + [' '] + (c + [' '] + d), ' ');
  }

  lemma SplitWords5(a: string, b: string, c: string, d: string, e: string)
    requires NoSpace(a) && NoSpace(b) && NoSpace(c) && NoSpace(d) && NoSpace(e)
    ensures Split(a + [' '] + (b + [' '] + (c + [' '] + (d + [' '] + e))), ' ') == [a, b, c, d, e]
  {
    SplitWords4(b, c, d, e);
    SplitCons(a, b + [' '] + (c + [' '] + (d + [' '] + e)), ' ');
  }

  lemma PathsNoSpace()
    ensures NoSpace(BootstrapDir) && NoSpace(BootstrapZip) && NoSpace(BootstrapScript)
  {
    assert BootstrapZip == "/var/tmp/hytale-bootstrap/bootstrap.zip";
    assert BootstrapScript == "/var/tmp/hytale-bootstrap/bootstrap.sh";
  }

  /**
   * The bootstrap bundle is fetched whole: the download command is `aws s3 cp`, the
   * asset's URL, and the zip path the unpack command reads.
   */
  lemma DownloadWords(a: Asset)
    requires NoSpace(a.s3BucketName) && NoSpace(a.s3ObjectKey)
    ensures Split(Download(a), ' ') == ["aws", "s3", "cp", S3Url(a), BootstrapZip]
  {
    var u := S3Url(a);
    assert NoSpace(u) by {
      forall k | 0 <= k < |u| ensures u[k] != ' ' {
        if 5 <= k < 5 + |a.s3BucketName| { assert u[k] == a.s3BucketName[k - 5]; }
        else if k > 5 + |a.s3BucketName| { assert u[k] == a.s3ObjectKey[k - 6 - |a.s3BucketName|]; }
      }
    }
    PathsNoSpace();
    assert Download(a) == "aws" + [' '] + ("s3" + [' '] + ("cp" + [' '] + (u + [' '] + BootstrapZip)));
    SplitWords5("aws", "s3", "cp", u, BootstrapZip);
  }

  function Values(opts: UserDataOptions): set<string> {
    {opts.downloaderZipAsset.s3BucketName, opts.downloaderZipAsset.s3ObjectKey, opts.backupBucketName}
    + (if opts.discordWebhookSecretArn.Some? then {opts.discordWebhookSecretArn.value} else {})
  }

  lemma AssignNoSpace(name: string, value: string)
    requires NoSpace(name) && NoSpace(value)
    ensures NoSpace(Assign(name, value))
  {
    var w := Assign(name, value);
    forall k | 0 <= k < |w| ensures w[k] != ' ' {
      if k < |name| { assert w[k] == name[k]; }
      else if |name| + 2 <= k < |name| + 2 + |value| { assert w[k] == value[k - |name| - 2]; }
    }
  }

  lemma IntToStringNoSpace(i: int)
    ensures NoSpace(IntToString(i))
  {
    var s := IntToString(i);
    forall k | 0 <= k < |s| ensures s[k] != ' ' {
      if i < 0 && k > 0 { assert s[k] == NatToString(-i)[k - 1]; }
    }
  }

  /**
   * The last command hands the bootstrap script its five settings, in the order of
   * `LaunchNames`, then runs it: when no value holds a space, its words are the five
   * assignments, `bash` and the script path, and each assignment reads back as its
   * variable and value.
   */
  lemma LaunchCommandWords(opts: UserDataOptions)
    requires forall v :: v in Values(opts) ==> NoSpace(v)
    ensures Split(LaunchCommand(opts), ' ') == LaunchAssignments(opts) + ["bash", BootstrapScript]
    ensures forall k :: 0 <= k < |LaunchNames| ==>
      ParseAssign(LaunchAssignments(opts)[k]) == Some((LaunchNames[k], LaunchValues(opts)[k]))
  {
    var ws := LaunchAssignments(opts);
    var vs := LaunchValues(opts);
    AssignmentsNoSpace(opts);
    LaunchCommandJoin(opts);
    SplitJoin(ws + ["bash", BootstrapScript], ' ');
    forall k | 0 <= k < |LaunchNames| ensures ParseAssign(ws[k]) == Some((LaunchNames[k], vs[k])) {
      NamesPlain(k);
      ParseAssignRoundTrip(LaunchNames[k], vs[k]);
    }
  }

  lemma AssignmentsReadBack(vs: seq<string>)
    requires |vs| == |LaunchNames|
    ensures forall k {:trigger Assign(LaunchNames[k], vs[k])} :: 0 <= k < |LaunchNames| ==>
      ParseAssign(Assign(LaunchNames[k], vs[k])) == Some((LaunchNames[k], vs[k]))
  {
    forall k | 0 <= k < |LaunchNames|
      ensures ParseAssign(Assign(LaunchNames[k], vs[k])) == Some((LaunchNames[k], vs[k]))
    {
      NamesPlain(k);
      ParseAssignRoundTrip(LaunchNames[k], vs[k]);
    }
  }

  lemma NamesPlain(k: nat)
    requires k < |LaunchNames|
    ensures NoSpace(LaunchNames[k]) && '=' !in LaunchNames[k]
  {
  }

  lemma AssignmentsNoSpace(opts: UserDataOptions)
    requires forall v :: v in Values(opts) ==> NoSpace(v)
    ensures forall k :: 0 <= k < |LaunchNames| + 2 ==> NoSpace((LaunchAssignments(opts) + ["bash", BootstrapScript])[k])
  {
    var ws := LaunchAssignments(opts);
    var vs := LaunchValues(opts);
    forall k | 0 <= k < |LaunchNames| ensures NoSpace(ws[k]) {
      NamesPlain(k);
      if k == 4 {
        if opts.dataVolumeSizeGib.Some? { IntToStringNoSpace(opts.dataVolumeSizeGib.value); }
      } else if k == 3 {
        assert vs[3] in Values(opts) || vs[3] == "";
      } else {
        assert vs[k] in Values(opts);
      }
      AssignNoSpace(LaunchNames[k], vs[k]);
    }
  }

  lemma LaunchCommandJoin(opts: UserDataOptions)
    ensures LaunchCommand(opts) == Join(LaunchAssignments(opts) + ["bash", BootstrapScript], ' ')
  {
    var ws := LaunchAssignments(opts);
    JoinAppend(ws, [RunBootstrap], ' ');
    JoinAppend(ws, ["bash", BootstrapScript], ' ');
    assert Join(["bash", BootstrapScript], ' ') == RunBootstrap;
  }

  /** An absent webhook ARN or volume size is passed as an empty quoted value. */
  lemma AbsentOptionalsEmpty(opts: UserDataOptions)
    ensures opts.discordWebhookSecretArn.None? ==> LaunchAssignments(opts)[3] == "DISCORD_WEBHOOK_SECRET_ARN=\"\""
    ensures opts.dataVolumeSizeGib.None? ==> LaunchAssignments(opts)[4] == "DATA_VOLUME_SIZE_GIB=\"\""
  {
  }

  /** A volume size is passed in decimal, and the digits read back as the size. */
  lemma VolumeSizeReadsBack(opts: UserDataOptions)
    requires opts.dataVolumeSizeGib.Some? && opts.dataVolumeSizeGib.value >= 0
    ensures var v := LaunchValues(opts)[4];
      (forall k :: 0 <= k < |v| ==> IsDigit(v[k])) && DigitsValue(v) == opts.dataVolumeSizeGib.value
  {
    NatToStringValue(opts.dataVolumeSizeGib.value);
  }

  /**
   * The boot order: logging and strict mode are set before anything is installed or
   * fetched; the directory is made before the bundle is fetched and unpacked into it,
   * and the script is made executable before the last command runs it.
   */
  lemma BootOrder(opts: UserDataOptions)
    ensures var cmds := HytaleCommands(opts);
      && cmds[0] == LogRedirect && cmds[1] == StrictMode
      && cmds[2] == InstallTools && cmds[3] == MakeBootstrapDir
      && cmds[4] == Download(opts.bootstrapAsset)
      && cmds[5] == Unpack && cmds[6] == MakeExecutable
      && cmds[7] == LaunchCommand(opts)
  {
  }

  /** The bundle is unpacked from the path it was fetched to, into the directory made for it. */
  lemma UnpackWords()
    ensures Split(Unpack, ' ') == ["unzip", "-o", BootstrapZip, "-d", BootstrapDir]
  {
    PathsNoSpace();
    assert Unpack == "unzip" + [' '] + ("-o" + [' '] + (BootstrapZip + [' '] + ("-d" + [' '] + BootstrapDir)));
    SplitWords5("unzip", "-o", BootstrapZip, "-d", BootstrapDir);
  }

  /** The script made executable is the one the last command runs. */
  lemma ChmodWords()
    ensures Split(MakeExecutable, ' ') == ["chmod", "+x", BootstrapScript]
  {
    PathsNoSpace();
    assert MakeExecutable == "chmod" + [' '] + ("+x" + [' '] + BootstrapScript);
    SplitWords3("chmod", "+x", BootstrapScript);
  }

  /** With the stack's 30 GiB data volume, the script is told DATA_VOLUME_SIZE_GIB="30". */
  lemma StackVolumeSize(opts: UserDataOptions)
    requires opts.dataVolumeSizeGib == Some(30)
    ensures LaunchAssignments(opts)[4] == "DATA_VOLUME_SIZE_GIB=\"30\""
  {
    assert NatToString(3) == "3";
  }
}
