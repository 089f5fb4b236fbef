/** The arguments of `mlr reg`: one to fifteen multicast addresses and an optional timeout. */
module MlrArguments {
  import opened Base
  import opened Numbers
  import opened Ip6Text
  import opened Ip6Laws

  const MAX_ADDRESSES: nat := 15

  datatype Registration = Registration(addresses: seq<Address>, timeout: Option<nat>)

  /** The declarative grammar: the arguments split into addresses and at most one number after them. */
  ghost predicate Denotes(args: seq<string>, r: Registration) {
    var n := |r.addresses|;
    && 1 <= n <= MAX_ADDRESSES
    && |args| == n + (if r.timeout.Some? then 1 else 0)
    && (forall k :: 0 <= k < n ==> ParseAddress(args[k]) == Some(r.addresses[k]))
    && (r.timeout.Some? ==> ParseUint(args[n], UINT32_MAX) == Ok(r.timeout.value))
  }

  /** An argument cannot be both an address and a number. */
  lemma {:induction false} NumberHasNoColon(s: string, radix: Radix)
    requires Value(s, radix).Some?
    ensures ':' !in s
  {
    if s != "" {
      NumberHasNoColon(s[..|s| - 1], radix);
      assert s == s[..|s| - 1] + [s[|s| - 1]];
    }
  }

  lemma NumberIsNoAddress(s: string)
    requires ParseUint(s, UINT32_MAX).Ok?
    ensures ParseAddress(s).None?
  {
    NumberHasNoColon(DigitsOf(s), RadixOf(s));
    if HasHexPrefix(s) {
      assert s == [s[0], s[1]] + s[2..];
    }
    NoColonNoAddress(s);
  }

  /** The split into addresses and timeout is unique. */
  lemma DenotationUnique(args: seq<string>, r: Registration, q: Registration)
    requires Denotes(args, r) && Denotes(args, q)
    ensures r == q
  {
    var n, m := |r.addresses|, |q.addresses|;
    if n < m {
      NumberIsNoAddress(args[n]);
    } else if m < n {
      NumberIsNoAddress(args[m]);
    }
    assert n == m;
    assert forall k :: 0 <= k < n ==> r.addresses[k] == q.addresses[k];
  }

  /**
   * `call` is what is passed to `otIp6RegisterMulticastListeners`, if the call is made, and
   * `stackError` what it returns.
   */
  method ProcessMlrReg(args: seq<string>, stackError: Error) returns (error: Error, call: Option<Registration>)
    ensures forall r :: Denotes(args, r) <==> call == Some(r)
    ensures error == if call.None? then InvalidArgs else if stackError != NoError then stackError else Pending
  {
    call := None;
    if |args| < 1 || |args| > MAX_ADDRESSES + 1 {
      return InvalidArgs, None;
    }
    var addresses := new Address[MAX_ADDRESSES](_ => [0, 0, 0, 0, 0, 0, 0, 0]);
    var i: nat := 0;
    while i < |args| && i < MAX_ADDRESSES
      invariant i <= |args| && i <= MAX_ADDRESSES
      invariant forall k :: 0 <= k < i ==> ParseAddress(args[k]) == Some(addresses[k])
    {
      var address := FromString(args[i]);
      if address.None? {
        break;
      }
      addresses[i] := address.value;
      i := i + 1;
    }
    assert i < |args| && i < MAX_ADDRESSES ==> ParseAddress(args[i]).None?;
    var list := addresses[..i];
    if !(i > 0 && (i == |args| || i == |args| - 1)) {
      NoDenotation(args, i);
      return InvalidArgs, None;
    }
    var timeout: Option<nat> := None;
    if i == |args| - 1 {
      var number := ParseUint(args[i], UINT32_MAX);
      if number.Err? {
        NoTimeout(args, i);
        return InvalidArgs, None;
      }
      timeout := Some(number.value);
    }
    var r := Registration(list, timeout);
    assert Denotes(args, r);
    forall q | Denotes(args, q) ensures q == r {
      DenotationUnique(args, q, r);
    }
    call := Some(r);
    error := if stackError != NoError then stackError else Pending;
  }

  lemma NoDenotation(args: seq<string>, i: nat)
    requires i <= |args| && i <= MAX_ADDRESSES
    requires i < |args| && i < MAX_ADDRESSES ==> ParseAddress(args[i]).None?
    requires i == 0 || i < |args| - 1
    ensures forall r :: !Denotes(args, r)
  {
    forall r ensures !Denotes(args, r) {
      if |r.addresses| > i && i < |args| {
        assert ParseAddress(args[i]) == Some(r.addresses[i]) || !Denotes(args, r);
      }
    }
  }

  /** The last argument is neither an address that fits nor a timeout. */
  lemma NoTimeout(args: seq<string>, i: nat)
    requires i == |args| - 1 && i <= MAX_ADDRESSES && ParseUint(args[i], UINT32_MAX).Err?
    requires i < MAX_ADDRESSES ==> ParseAddress(args[i]).None?
    ensures forall r :: !Denotes(args, r)
  {
    forall r ensures !Denotes(args, r) {
      if |r.addresses| > i {
        assert i < MAX_ADDRESSES ==> ParseAddress(args[i]) != Some(r.addresses[i]);
      }
    }
  }
}
