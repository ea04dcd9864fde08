/** The outbound header pipeline: hop-by-hop stripping, forwarding headers, host rewrite, blocked names. */
module Headers {
  import opened Wrappers
  import opened Connection

  /** A header map: each present (lower-case) name with its values in order. */
  type Fields = map<string, seq<string>>

  const STANDARD: seq<string> := [
    "connection", "keep-alive", "proxy-authenticate", "proxy-authorization",
    "te", "trailers", "transfer-encoding", "upgrade"
  ]

  const FORWARDED_FOR := "x-forwarded-for"
  const FORWARDED_PROTO := "x-forwarded-proto"
  const FORWARDED_HOST := "x-forwarded-host"
  const HOST := "host"

  function Elements(names: seq<string>): (s: set<string>)
    ensures forall n :: n in s <==> n in names
  {
    set n | n in names
  }

  /** The first value of a name, which is the one a lookup returns. */
  function First(m: Fields, name: string): Option<string>
  {
    if name in m && m[name] != [] then Some(m[name][0]) else None
  }

  /** The names the program treats as declared: those of the first Connection value. */
  function DeclaredNames(lib: Library, m: Fields): seq<string>
  {
    match First(m, "connection")
    case None => []
    case Some(value) => Declared(lib, value)
  }

  // ----- the four passes as functions of the map -----

  function Stripped(lib: Library, m: Fields): Fields
  {
    m - Elements(DeclaredNames(lib, m)) - Elements(STANDARD)
  }

  function ForwardedFor(lib: Library, m: Fields, clientIp: string, trust: bool): string
  {
    var existing := First(m, FORWARDED_FOR);
    if trust && existing.Some? && lib.visible(existing.value) then existing.value + ", " + clientIp else clientIp
  }

  function Injected(lib: Library, m: Fields, clientIp: string, tls: bool, trust: bool): Fields
  {
    var xff := ForwardedFor(lib, m, clientIp, trust);
    var m1 := if lib.encodable(xff) then m[FORWARDED_FOR := [xff]] else m;
    var m2 := if trust && FORWARDED_PROTO in m1 then m1 else m1[FORWARDED_PROTO := [if tls then "https" else "http"]];
    var host := First(m2, HOST);
    if host.Some? then m2[FORWARDED_HOST := [host.value]] else m2
  }

  function Rewritten(lib: Library, m: Fields, authority: string): Fields
  {
    if lib.encodable(authority) then m[HOST := [authority]] else m
  }

  function Forwarded(lib: Library, m: Fields, clientIp: string, tls: bool, trust: bool,
                     authority: string, blocked: seq<string>): Fields
  {
    Rewritten(lib, Injected(lib, Stripped(lib, m), clientIp, tls, trust), authority) - Elements(blocked)
  }

  // ----- what comes out, name by name -----

  /** The names that belong to one connection only. */
  predicate HopByHop(name: string)
  {
    || name == "connection" || name == "keep-alive" || name == "proxy-authenticate" || name == "proxy-authorization"
    || name == "te" || name == "trailers" || name == "transfer-encoding" || name == "upgrade"
  }

  /** The first Connection value is readable and one of its pieces names `name`. */
  ghost predicate DeclaredFirst(lib: Library, m: Fields, name: string)
  {
    && "connection" in m && m["connection"] != [] && lib.visible(m["connection"][0])
    && DeclaredIn(lib, m["connection"][0], name)
  }

  ghost predicate Survives(lib: Library, m: Fields, name: string)
  {
    name in m && !HopByHop(name) && !DeclaredFirst(lib, m, name)
  }

  function Lookup(m: Fields, name: string): Option<seq<string>>
  {
    if name in m then Some(m[name]) else None
  }

  ghost function Kept(lib: Library, m: Fields, name: string): Option<seq<string>>
  {
    if Survives(lib, m, name) then Some(m[name]) else None
  }

  /** The client's address, appended to a trusted, surviving and readable list. */
  ghost function AddressList(lib: Library, m: Fields, clientIp: string, trust: bool): string
  {
    if trust && Survives(lib, m, "x-forwarded-for") && m["x-forwarded-for"] != [] && lib.visible(m["x-forwarded-for"][0])
    then m["x-forwarded-for"][0] + ", " + clientIp
    else clientIp
  }

  /** The values with which `name` reaches the upstream, from what the client sent. */
  ghost function Expected(lib: Library, m: Fields, clientIp: string, tls: bool, trust: bool,
                          authority: string, blocked: seq<string>, name: string): Option<seq<string>>
  {
    if name in blocked then None
    else if name == "host" then
      if lib.encodable(authority) then Some([authority]) else Kept(lib, m, name)
    else if name == "x-forwarded-for" then
      var list := AddressList(lib, m, clientIp, trust);
      if lib.encodable(list) then Some([list]) else Kept(lib, m, name)
    else if name == "x-forwarded-proto" then
      if trust && Survives(lib, m, name) then Some(m[name]) else Some([if tls then "https" else "http"])
    else if name == "x-forwarded-host" then
      if Survives(lib, m, "host") && m["host"] != [] then Some([m["host"][0]]) else Kept(lib, m, name)
    else Kept(lib, m, name)
  }

  /** Stripping leaves exactly the names that survive, with all their values in order. */
  lemma StrippedExactly(lib: Library, m: Fields, name: string)
    ensures Lookup(Stripped(lib, m), name) == Kept(lib, m, name)
    ensures First(Stripped(lib, m), name) ==
            if Survives(lib, m, name) && m[name] != [] then Some(m[name][0]) else None
  {
    if First(m, "connection").Some? && lib.visible(m["connection"][0]) {
      DeclaredExactly(lib, m["connection"][0], name);
    }
  }

  lemma HeaderNamesDiffer()
    ensures !HopByHop("host") && !HopByHop("x-forwarded-for") && !HopByHop("x-forwarded-proto") && !HopByHop("x-forwarded-host")
    ensures "x-forwarded-for" != "x-forwarded-proto" && "x-forwarded-for" != "x-forwarded-host"
    ensures "x-forwarded-proto" != "x-forwarded-host" && "host"[0] == 'h' && "x-forwarded-for"[0] == 'x'
    ensures "x-forwarded-proto"[0] == 'x' && "x-forwarded-host"[0] == 'x'
  {
    assert |"x-forwarded-for"| == 15 && |"x-forwarded-proto"| == 17 && |"x-forwarded-host"| == 16;
  }

  lemma InjectedExactly(lib: Library, m: Fields, s: Fields, clientIp: string, tls: bool, trust: bool, name: string)
    requires s == Stripped(lib, m)
    ensures var out, list := Injected(lib, s, clientIp, tls, trust), AddressList(lib, m, clientIp, trust);
            Lookup(out, name) ==
              if name == "x-forwarded-for" && lib.encodable(list) then Some([list])
              else if name == "x-forwarded-proto" then
                Some(if trust && Survives(lib, m, name) then m[name] else [if tls then "https" else "http"])
              else if name == "x-forwarded-host" && Survives(lib, m, "host") && m["host"] != [] then Some([m["host"][0]])
              else Kept(lib, m, name)
  {
    StrippedExactly(lib, m, name);
    StrippedExactly(lib, m, "x-forwarded-for");
    StrippedExactly(lib, m, "x-forwarded-proto");
    StrippedExactly(lib, m, "host");
    HeaderNamesDiffer();
  }

  /**
   * All four stages together, for every name: what leaves the proxy is exactly what was expected of the
   * client's headers, the connection, the trust setting, the upstream and the blocked names.
   */
  lemma ForwardedExactly(lib: Library, m: Fields, clientIp: string, tls: bool, trust: bool,
                         authority: string, blocked: seq<string>, name: string)
    ensures Lookup(Forwarded(lib, m, clientIp, tls, trust, authority, blocked), name) ==
            Expected(lib, m, clientIp, tls, trust, authority, blocked, name)
  {
    InjectedExactly(lib, m, Stripped(lib, m), clientIp, tls, trust, name);
    HeaderNamesDiffer();
  }

  // ----- the passes in place -----

  class HeaderMap {
    var fields: Fields

    method Remove(name: string)
      modifies this
      ensures fields == old(fields) - {name}
    {
      fields := fields - {name};
    }

    method Insert(name: string, value: string)
      modifies this
      ensures fields == old(fields)[name := [value]]
    {
      fields := fields[name := [value]];
    }

    method RemoveAll(names: seq<string>)
      modifies this
      ensures fields == old(fields) - Elements(names)
    {
      for i := 0 to |names|
        invariant fields == old(fields) - Elements(names[..i])
      {
        Remove(names[i]);
        assert Elements(names[..i + 1]) == Elements(names[..i]) + {names[i]};
      }
      assert names[..|names|] == names;
    }

    method StripHopByHop(lib: Library)
      modifies this
      ensures fields == Stripped(lib, old(fields))
      ensures forall name :: Lookup(fields, name) == Kept(lib, old(fields), name)
    {
      ghost var before := fields;
      var conn := DeclaredNames(lib, fields);
      RemoveAll(conn);
      RemoveAll(STANDARD);
      forall name
        ensures Lookup(fields, name) == Kept(lib, before, name)
      {
        StrippedExactly(lib, before, name);
      }
    }

    method InjectForwardingHeaders(lib: Library, clientIp: string, tls: bool, trust: bool)
      modifies this
      ensures fields == Injected(lib, old(fields), clientIp, tls, trust)
    {
      var xff := clientIp;
      if trust {
        var existing := First(fields, FORWARDED_FOR);
        if existing.Some? && lib.visible(existing.value) {
          xff := existing.value + ", " + clientIp;
        }
      }
      if lib.encodable(xff) {
        Insert(FORWARDED_FOR, xff);
      }
      if !(trust && FORWARDED_PROTO in fields) {
        Insert(FORWARDED_PROTO, if tls then "https" else "http");
      }
      var host := First(fields, HOST);
      if host.Some? {
        Insert(FORWARDED_HOST, host.value);
      }
    }

    method RewriteHost(lib: Library, authority: string)
      modifies this
      ensures fields == Rewritten(lib, old(fields), authority)
    {
      if lib.encodable(authority) {
        Insert(HOST, authority);
      }
    }

    /** The header stages of request handling, in order. */
    method PrepareForUpstream(lib: Library, clientIp: string, tls: bool, trust: bool,
                              authority: string, blocked: seq<string>)
      modifies this
      ensures fields == Forwarded(lib, old(fields), clientIp, tls, trust, authority, blocked)
      ensures forall name :: Lookup(fields, name) == Expected(lib, old(fields), clientIp, tls, trust, authority, blocked, name)
    {
      ghost var before := fields;
      StripHopByHop(lib);
      InjectForwardingHeaders(lib, clientIp, tls, trust);
      RewriteHost(lib, authority);
      RemoveAll(blocked);
      forall name
        ensures Lookup(fields, name) == Expected(lib, before, clientIp, tls, trust, authority, blocked, name)
      {
        ForwardedExactly(lib, before, clientIp, tls, trust, authority, blocked, name);
      }
    }
  }

  // ----- consequences -----

  /** Neither a hop-by-hop name nor a blocked name leaves the proxy, and none of the former survives stripping. */
  lemma NothingForbiddenForwarded(lib: Library, m: Fields, clientIp: string, tls: bool, trust: bool,
                                  authority: string, blocked: seq<string>, name: string)
    ensures HopByHop(name) ==> name !in Stripped(lib, m)
    ensures HopByHop(name) || name in blocked ==>
              name !in Forwarded(lib, m, clientIp, tls, trust, authority, blocked)
  {
    StrippedExactly(lib, m, name);
    ForwardedExactly(lib, m, clientIp, tls, trust, authority, blocked, name);
    HeaderNamesDiffer();
  }

  /**
   * Without trust the forwarded address and scheme are the same for any two clients' headers: only the
   * connection decides them.
   */
  lemma UntrustedForwardingFixed(lib: Library, m: Fields, n: Fields, clientIp: string, tls: bool,
                                 authority: string, blocked: seq<string>)
    requires lib.encodable(clientIp)
    ensures var out := Forwarded(lib, m, clientIp, tls, false, authority, blocked);
            var other := Forwarded(lib, n, clientIp, tls, false, authority, blocked);
            && Lookup(out, "x-forwarded-for") == Lookup(other, "x-forwarded-for")
            && Lookup(out, "x-forwarded-proto") == Lookup(other, "x-forwarded-proto")
            && ("x-forwarded-for" !in blocked ==> Lookup(out, "x-forwarded-for") == Some([clientIp]))
            && ("x-forwarded-proto" !in blocked ==>
                  Lookup(out, "x-forwarded-proto") == Some([if tls then "https" else "http"]))
  {
    HeaderNamesDiffer();
    ForwardedExactly(lib, m, clientIp, tls, false, authority, blocked, "x-forwarded-for");
    ForwardedExactly(lib, n, clientIp, tls, false, authority, blocked, "x-forwarded-for");
    ForwardedExactly(lib, m, clientIp, tls, false, authority, blocked, "x-forwarded-proto");
    ForwardedExactly(lib, n, clientIp, tls, false, authority, blocked, "x-forwarded-proto");
  }

  /** The forwarded host does not depend on trust: a client that sends no host chooses it. */
  lemma UntrustedHostForwarded(lib: Library, m: Fields, clientIp: string, tls: bool, authority: string)
    requires "x-forwarded-host" in m && "connection" !in m && "host" !in m
    ensures Lookup(Forwarded(lib, m, clientIp, tls, false, authority, []), "x-forwarded-host") == Some(m["x-forwarded-host"])
  {
    HeaderNamesDiffer();
    ForwardedExactly(lib, m, clientIp, tls, false, authority, [], "x-forwarded-host");
  }

  /** Stripping twice is stripping once, although the second pass has no Connection header to read. */
  lemma StripIdempotent(lib: Library, m: Fields)
    ensures Stripped(lib, Stripped(lib, m)) == Stripped(lib, m)
  {
    assert "connection" == STANDARD[0];
    assert Stripped(lib, m) - Elements(STANDARD) == Stripped(lib, m);
  }

  // ----- the Connection header as RFC 9110 reads it -----

  /** Connection value number `k` is readable and one of its pieces names `name`. */
  ghost predicate DeclaredBy(lib: Library, m: Fields, k: nat, name: string)
  {
    && "connection" in m && k < |m["connection"]| && lib.visible(m["connection"][k])
    && DeclaredIn(lib, m["connection"][k], name)
  }

  /** What section 7.6.1 of RFC 9110 lets through: all Connection values count, not just the first. */
  ghost predicate SurvivesRfc(lib: Library, m: Fields, name: string)
  {
    name in m && !HopByHop(name) && forall k: nat :: !DeclaredBy(lib, m, k, name)
  }

  lemma SurvivesRfcStep(lib: Library, m: Fields, name: string)
    ensures SurvivesRfc(lib, m, name) ==> name in Stripped(lib, m)
    ensures name in Stripped(lib, m) && !SurvivesRfc(lib, m, name) ==> exists k: nat :: k > 0 && DeclaredBy(lib, m, k, name)
  {
    StrippedExactly(lib, m, name);
    assert DeclaredBy(lib, m, 0, name) <==> DeclaredFirst(lib, m, name);
  }

  /**
   * The program agrees with that reading exactly when every header that a later Connection value names is
   * hop-by-hop, absent, or named by the first value too.
   */
  lemma StripMeetsRfcIff(lib: Library, m: Fields)
    ensures (forall name :: name in Stripped(lib, m) <==> SurvivesRfc(lib, m, name)) <==>
            forall name, k: nat :: k > 0 && DeclaredBy(lib, m, k, name) && name in m ==>
              HopByHop(name) || DeclaredFirst(lib, m, name)
  {
    if forall name :: name in Stripped(lib, m) <==> SurvivesRfc(lib, m, name) {
      forall name, k: nat | k > 0 && DeclaredBy(lib, m, k, name) && name in m
        ensures HopByHop(name) || DeclaredFirst(lib, m, name)
      {
        StrippedExactly(lib, m, name);
        assert !SurvivesRfc(lib, m, name);
      }
    }
    if forall name, k: nat :: k > 0 && DeclaredBy(lib, m, k, name) && name in m ==>
         HopByHop(name) || DeclaredFirst(lib, m, name) {
      forall name
        ensures name in Stripped(lib, m) <==> SurvivesRfc(lib, m, name)
      {
        SurvivesRfcStep(lib, m, name);
        StrippedExactly(lib, m, name);
      }
    }
  }

  /** A header that only a second Connection value declares is forwarded, against the RFC. */
  lemma SecondConnectionValueMissed(lib: Library, m: Fields, first: string, later: string, value: string)
    requires SingleName(lib, first) && SingleName(lib, later) && first != later && !HopByHop(later)
    requires m == map["connection" := [first, later], later := [value]]
    ensures later in Stripped(lib, m) && !SurvivesRfc(lib, m, later)
  {
    DeclaredAlone(lib, first);
    DeclaredAlone(lib, later);
    DeclaredExactly(lib, first, later);
    DeclaredExactly(lib, later, later);
    StrippedExactly(lib, m, later);
    assert DeclaredBy(lib, m, 1, later);
  }

  lemma SecondConnectionValueInstance(lib: Library, first: string, later: string)
    requires first == "close" && later == "x-secret" && SingleName(lib, first) && SingleName(lib, later)
    ensures later in Stripped(lib, map["connection" := [first, later], later := ["leaked"]])
  {
    assert later[0] == 'x';
    SecondConnectionValueMissed(lib, map["connection" := [first, later], later := ["leaked"]], first, later, "leaked");
  }
}
