/** The abuse gate (middleware/security.js): antiVpnMiddleware, which
    normalises the client IP, rejects it when the known-proxy set holds it
    and otherwise asks an IP-reputation service, failing open; and
    authenticatePlugin, the shared-secret check in front of the plugin
    routes. The reputation lookup is an input: None when the request failed,
    timed out or its body could not be read. */
module Security {
  import opened Js
  import opened Http
  import opened ProxyService

  /** The prefix of an IPv4-mapped IPv6 address. */
  const MappedPrefix: string := "::ffff:"
  const ProxyDetected: string := "Access Denied: Proxy Detected"
  const InvalidApiKey: string := "Invalid API Key"
  /** The status the reputation service answers a successful query with. */
  const LookupSuccess: string := "success"

  /** ip.replace("::ffff:", "").trim(): the first "::ffff:" anywhere in the
      address is removed, then surrounding whitespace. */
  function NormaliseIp(ip: string): string
  {
    Trim(ReplaceFirst(ip, MappedPrefix, ""))
  }

  /** An address without "::ffff:" in it is only trimmed. */
  lemma NormaliseUnmapped(ip: string)
    requires forall k | 0 <= k <= |ip| :: !OccursAt(ip, MappedPrefix, k)
    ensures NormaliseIp(ip) == Trim(ip)
  {
    ReplaceFirstSpec(ip, MappedPrefix, "");
  }

  /** An IPv4-mapped address normalises to its IPv4 part. */
  lemma NormaliseMapped(v4: string)
    requires v4 != [] ==> !IsWhitespace(v4[0]) && !IsWhitespace(v4[|v4| - 1])
    ensures NormaliseIp(MappedPrefix + v4) == v4
  {
    var ip := MappedPrefix + v4;
    assert OccursAt(ip, MappedPrefix, 0) by {
      assert ip[..|MappedPrefix|] == MappedPrefix;
    }
    assert ReplaceFirst(ip, MappedPrefix, "") == v4 by {
      assert ip[|MappedPrefix|..] == v4;
    }
    TrimUnchanged(v4);
  }

  /** The fields the middleware reads from the reputation service's body. */
  datatype Lookup = Lookup(status: string, proxy: bool, hosting: bool)

  /** data.status === "success" && (data.proxy || data.hosting). */
  predicate FlagsProxy(lookup: Option<Lookup>) {
    lookup.Some? && lookup.value.status == LookupSuccess && (lookup.value.proxy || lookup.value.hosting)
  }

  /** The parts of a Fastify request the routes use: the client address and
      the isvpn flag the middleware decorates it with. */
  class Request {
    const ip: string
    var isvpn: bool

    constructor (ip: string)
      ensures this.ip == ip && !isvpn
    {
      this.ip := ip;
      isvpn := false;
    }
  }

  /** antiVpnMiddleware: isvpn is reset to false; a normalised address the
      known-proxy set holds is answered 403 at once and no lookup is made;
      otherwise the normalised address is looked up (`queried`) and isvpn
      becomes true exactly when the lookup succeeded and flagged a proxy or
      hosting provider. A failed lookup leaves it false. */
  method AntiVpnMiddleware(request: Request, known: KnownProxies, lookup: Option<Lookup>)
    returns (hook: Hook, queried: Option<string>)
    modifies request
    ensures var ip := NormaliseIp(request.ip);
            hook != Continue <==> ip in known.entries
    ensures hook != Continue ==> hook == Halt(403, ProxyDetected) && queried.None? && !request.isvpn
    ensures hook == Continue ==>
              queried == Some(NormaliseIp(request.ip)) && request.isvpn == FlagsProxy(lookup)
    ensures lookup.None? ==> !request.isvpn
  {
    request.isvpn := false;
    var cleanIp := NormaliseIp(request.ip);
    if cleanIp in known.entries {
      return Halt(403, ProxyDetected), None;
    }
    queried := Some(cleanIp);
    if lookup.Some? && lookup.value.status == LookupSuccess && (lookup.value.proxy || lookup.value.hosting) {
      request.isvpn := true;
    }
    hook := Continue;
  }

  /** The set holds host:port strings, so an address without a ':' (every
      IPv4 address, mapped or not) is never found in it. */
  lemma BareAddressNeverKnown(known: set<string>, ip: string)
    requires forall p | p in known :: ':' in p
    requires ':' !in NormaliseIp(ip)
    ensures NormaliseIp(ip) !in known
  {
  }

  /** In particular an IPv4-mapped client is never stopped by the set. */
  lemma MappedIpv4NeverKnown(known: set<string>, v4: string)
    requires forall p | p in known :: ':' in p
    requires ':' !in v4
    requires v4 != [] ==> !IsWhitespace(v4[0]) && !IsWhitespace(v4[|v4| - 1])
    ensures NormaliseIp(MappedPrefix + v4) !in known
  {
    NormaliseMapped(v4);
  }

  /** authenticatePlugin: the mp-api-key header must be present, non-empty
      and equal to MP_API_KEY; otherwise 403. */
  function AuthenticatePlugin(header: Option<string>, apiKey: Option<string>): (hook: Hook)
    ensures hook == Continue || hook == Halt(403, InvalidApiKey)
    ensures hook == Continue <==> Truthy(header) && header == apiKey
  {
    if !Truthy(header) || header != apiKey then Halt(403, InvalidApiKey) else Continue
  }

  /** With MP_API_KEY unset or empty no header gets through. */
  lemma UnsetKeyLocksOut(header: Option<string>, apiKey: Option<string>)
    requires !Truthy(apiKey)
    ensures AuthenticatePlugin(header, apiKey) == Halt(403, InvalidApiKey)
  {
  }
}
