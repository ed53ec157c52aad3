/** The part of the application configuration that the Route 53 backup job
    reads: the accounts to back up and the role to assume in them. */
module Config {
  import opened Strings

  /** The `job.route53Backup` section of the configuration. */
  datatype Route53Backup = Route53Backup(assumeRole: string, accounts: string)

  /** The configuration, reduced to the section the core reads. */
  datatype Config = Config(route53Backup: Route53Backup)

  /** The configured account list: the `accounts` setting with every space
      deleted, split at each comma. An empty setting yields one empty
      account, and consecutive commas yield empty accounts, as in Go. */
  function Route53AwsAccounts(c: Config): (r: seq<string>)
    ensures forall i :: 0 <= i < |r| ==> ' ' !in r[i] && ',' !in r[i]
    ensures |r| == Count(c.route53Backup.accounts, ',') + 1
    ensures Join(r, ',') == RemoveAll(c.route53Backup.accounts, ' ')
  {
    var buf := RemoveAll(c.route53Backup.accounts, ' ');
    var r := Split(buf, ',');
    assert forall i, x :: 0 <= i < |r| && x in r[i] ==> x in buf;
    r
  }

  /** A character of a joined string is the separator or comes from a part. */
  lemma {:induction false} JoinCharacters(parts: seq<string>, sep: char, x: char)
    requires x in Join(parts, sep)
    ensures x == sep || exists i :: 0 <= i < |parts| && x in parts[i]
  {
    if |parts| > 1 {
      if x in Join(parts[1..], sep) {
        JoinCharacters(parts[1..], sep, x);
        if x != sep {
          var i :| 0 <= i < |parts[1..]| && x in parts[1..][i];
          assert x in parts[i + 1];
        }
      } else if x != sep {
        assert x in parts[0];
      }
    } else if |parts| == 1 {
      assert x in parts[0];
    }
  }

  /** Deleting a character that does not occur changes nothing. */
  lemma {:induction false} RemoveAllAbsent(s: string, c: char)
    requires c !in s
    ensures RemoveAll(s, c) == s
  {
    if s != [] {
      assert c !in s[1..];
      RemoveAllAbsent(s[1..], c);
      assert s == [s[0]] + s[1..];
    }
  }

  /** Account IDs written comma-separated are read back one by one. */
  lemma AccountsRoundTrip(ids: seq<string>, assumeRole: string)
    requires |ids| > 0
    requires forall i :: 0 <= i < |ids| ==> ' ' !in ids[i] && ',' !in ids[i]
    ensures Route53AwsAccounts(Config(Route53Backup(assumeRole, Join(ids, ',')))) == ids
  {
    var s := Join(ids, ',');
    if ' ' in s {
      JoinCharacters(ids, ',', ' ');
    }
    RemoveAllAbsent(s, ' ');
    SplitJoin(ids, ',');
  }

  /** Spaces in the setting never matter: the same accounts are read with
      them deleted. */
  lemma SpacesIgnored(assumeRole: string, accounts: string)
    ensures Route53AwsAccounts(Config(Route53Backup(assumeRole, accounts)))
         == Route53AwsAccounts(Config(Route53Backup(assumeRole, RemoveAll(accounts, ' '))))
  {
    RemoveAllAbsent(RemoveAll(accounts, ' '), ' ');
  }
}
