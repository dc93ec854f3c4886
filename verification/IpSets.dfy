/** Kernel IP sets with several users per entry (net/ipset/ipset.go). */
module IpSets {

  type UID = string
  type IP = string

  /** The two directions of a network policy. */
  datatype PolicyType = Ingress | Egress

  /** The sets of a namespace, by what their generated names stand for. */
  datatype SetName = DefaultAllow(policyType: PolicyType) | SelectorSet(key: string)

  /** user wants the address to be in the set. */
  type Use = (UID, SetName, IP)

  class IpSet {
    /** The users of every entry of every set. */
    var users: map<(SetName, IP), set<UID>>

    /** The sets in the kernel, as the ipset commands leave them. */
    var kernel: map<SetName, set<IP>>

    /** All uses together. */
    ghost var uses: set<Use>

    /** The uses are what the users say. */
    ghost predicate Agrees(u: UID, n: SetName, ip: IP)
      reads this
    {
      (u, n, ip) in uses <==> (n, ip) in users && u in users[(n, ip)]
    }

    /** The kernel has the entries that have users. */
    ghost predicate Listed(n: SetName, ip: IP)
      reads this
    {
      && ((n, ip) in users ==> users[(n, ip)] != {})
      && ((n, ip) in users <==> n in kernel && ip in kernel[n])
    }

    ghost predicate Valid()
      reads this
    {
      && (forall u, n, ip {:trigger Agrees(u, n, ip)} :: Agrees(u, n, ip))
      && (forall n, ip {:trigger Listed(n, ip)} :: Listed(n, ip))
    }

    /** An address is in a kernel set just when some user wants it there. */
    lemma KernelHasUsed(n: SetName, ip: IP)
      requires Valid() && n in kernel
      ensures ip in kernel[n] <==> exists u :: (u, n, ip) in uses
    {
      assert Listed(n, ip);
      if ip in kernel[n] {
        var u :| u in users[(n, ip)];
        assert Agrees(u, n, ip);
      }
      if u :| (u, n, ip) in uses {
        assert Agrees(u, n, ip);
      }
    }

    constructor ()
      ensures Valid() && uses == {} && kernel == map[]
    {
      users, kernel, uses := map[], map[], {};
    }

    method Create(n: SetName)
      requires Valid() && n !in kernel
      modifies this
      ensures Valid() && uses == old(uses) && kernel.Keys == old(kernel).Keys + {n}
    {
      kernel := kernel[n := {}];
      forall u, m, ip ensures Agrees(u, m, ip) {
        assert old(Agrees(u, m, ip));
      }
      forall m, ip ensures Listed(m, ip) {
        assert old(Listed(m, ip));
      }
    }

    /** The command that adds an entry is given only if the entry is not there yet. */
    method AddEntry(user: UID, n: SetName, ip: IP)
      requires Valid() && n in kernel
      modifies this
      ensures Valid() && uses == old(uses) + {(user, n, ip)} && kernel.Keys == old(kernel).Keys
    {
      var k := (n, ip);
      assert Listed(n, ip);
      if k !in users {
        assert ip !in kernel[n];
        users := users[k := {}];
        kernel := kernel[n := kernel[n] + {ip}];
      }
      users := users[k := users[k] + {user}];
      uses := uses + {(user, n, ip)};
      forall u, m, i ensures Agrees(u, m, i) {
        assert old(Agrees(u, m, i));
      }
      forall m, i ensures Listed(m, i) {
        assert old(Listed(m, i));
      }
    }

    /** The command that deletes an entry is given only for the last user. */
    method DelEntry(user: UID, n: SetName, ip: IP)
      requires Valid() && n in kernel
      modifies this
      ensures Valid() && uses == old(uses) - {(user, n, ip)} && kernel.Keys == old(kernel).Keys
    {
      var k := (n, ip);
      assert Listed(n, ip);
      if k in users {
        var left := users[k] - {user};
        assert forall u :: u in users[k] <==> u in left || (u == user && user in users[k]);
        if left == {} {
          users := users - {k};
          assert ip in kernel[n];
          kernel := kernel[n := kernel[n] - {ip}];
        } else {
          users := users[k := left];
        }
      }
      uses := uses - {(user, n, ip)};
      forall u, m, i ensures Agrees(u, m, i) {
        assert old(Agrees(u, m, i));
      }
      forall m, i ensures Listed(m, i) {
        assert old(Listed(m, i));
      }
    }

    method Exist(user: UID, n: SetName, ip: IP) returns (exists': bool)
      requires Valid()
      ensures exists' <==> (user, n, ip) in uses
    {
      assert Agrees(user, n, ip);
      exists' := (n, ip) in users && user in users[(n, ip)];
    }

    method Destroy(n: SetName)
      requires Valid() && n in kernel
      modifies this
      ensures Valid() && kernel.Keys == old(kernel).Keys - {n}
      ensures forall u, m, ip :: (u, m, ip) in uses <==> (u, m, ip) in old(uses) && m != n
    {
      users := map k | k in users && k.0 != n :: users[k];
      kernel := kernel - {n};
      uses := set t | t in uses && t.1 != n;
      forall u, m, ip ensures Agrees(u, m, ip) {
        assert old(Agrees(u, m, ip));
      }
      forall m, ip ensures Listed(m, ip) {
        assert old(Listed(m, ip));
      }
    }
  }
}
