/** The service object: its registry and its browser, begun and ended together. */
module Mdns {
  import opened Bytes
  import opened Wrappers

  import B = MdnsBrowse
  import R = MdnsRegistry

  const HOSTNAME_SIZE := 64

  predicate GoodHostname(hostname: Option<cstring>) {
    hostname.Some? && hostname.value != [] && |hostname.value| < HOSTNAME_SIZE && DOT !in hostname.value
  }

  class MongooseMdns {
    const registry: R.Registry
    const browser: B.Browser

    ghost predicate Valid()
      reads this, registry, registry.services, browser
    {
      registry.Valid() && browser.Valid()
    }

    constructor ()
      ensures Valid() && registry.View() == [] && browser.service == [] && !browser.listening
      ensures fresh(registry) && fresh(registry.services) && fresh(browser)
    {
      registry := new R.Registry();
      browser := new B.Browser();
    }

    /** Services and browse go, and nothing is sent any more. */
    method End()
      requires Valid()
      modifies registry, browser
      ensures Valid() && registry.View() == [] && !browser.listening
      ensures browser.service == [] && browser.records == [] && browser.queries == old(browser.queries)
    {
      registry.End();
      browser.StopListening();
    }

    /** `started` is whether the manager opens the listener. What was registered or browsed
        before is gone, even if it does not; a bad name changes nothing. */
    method Begin(hostname: Option<cstring>, started: bool) returns (ok: bool)
      requires Valid()
      modifies registry, browser
      ensures Valid() && ok == (GoodHostname(hostname) && started)
      ensures GoodHostname(hostname) ==>
                registry.View() == [] && browser.service == [] && browser.listening == started
      ensures !GoodHostname(hostname) ==> unchanged(registry) && unchanged(browser)
    {
      if hostname.None? || hostname.value == [] || |hostname.value| > 63 || DOT in hostname.value {
        return false;
      }
      End();
      browser.Listen(started);
      return started;
    }
  }
}
