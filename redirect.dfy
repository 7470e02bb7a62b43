/**
 The redirect page: on mount it picks one link from a fixed pool, records it as
 `targetUrl` and dispatches it; the retry button dispatches `targetUrl` again.
 A dispatch navigates straight to the URL and, on Android, also sets a 100 ms
 timer that navigates to a Chrome intent URL for the same address.

 The browser is reduced to what the page does with it: a fixed user-agent
 string, the list of values assigned to `window.location.href` in order, and
 the timers set with `setTimeout` that have not fired yet.
 */
module Redirect {
  import opened Handoff

  /** Milliseconds between the direct navigation and the handoff navigation. */
  const HANDOFF_DELAY: nat := 100

  /** The pool the page picks its destination from. */
  const LINKS: seq<string> := [
    "https://onlyfans.com/tasty_marie/c8",
    "https://onlyfans.com/yoourpriincess/c7",
    "https://onlyfans.com/natsunya/c10",
    "https://onlyfans.com/medixkate/c59",
    "https://onlyfans.com/eva_millerr/c6",
    "https://onlyfans.com/tori_hayes/c104",
    "https://onlyfans.com/mollylo/c8",
    "https://onlyfans.com/sofaaaaaaaaaa/c5",
    "https://onlyfans.com/hillary_sweets/c110",
    "https://onlyfans.com/paula_flores/c16",
    "https://onlyfans.com/nicole_angel/c57",
    "https://onlyfans.com/sofiaaamillerrr/c54"
  ]

  /** A `setTimeout` callback that assigns `url` to the location once `delay` milliseconds have passed. */
  datatype Timer = Timer(delay: nat, url: string)

  /** The timer a dispatch of `url` sets, if the user agent is Android. */
  predicate IsHandoffTimer(t: Timer) {
    t.delay == HANDOFF_DELAY && ParseIntent(t.url).Some?
  }

  /** The browser globals the page touches: `navigator.userAgent`, `window.location.href` and `setTimeout`. */
  class Navigator {
    const userAgent: string
    /** Every value assigned to the location, oldest first. */
    var log: seq<string>
    /** Timers set and not yet fired, in the order they were set. */
    var pending: seq<Timer>

    constructor (userAgent: string)
      ensures this.userAgent == userAgent && log == [] && pending == []
    {
      this.userAgent := userAgent;
      log := [];
      pending := [];
    }

    /** `window.location.href = url`. */
    method NavigateTo(url: string)
      modifies this
      ensures log == old(log) + [url]
      ensures pending == old(pending)
    {
      log := log + [url];
    }

    /** `setTimeout(() => { window.location.href = url; }, delay)`. */
    method SetTimeout(delay: nat, url: string)
      modifies this
      ensures pending == old(pending) + [Timer(delay, url)]
      ensures log == old(log)
    {
      pending := pending + [Timer(delay, url)];
    }

    /**
     The browser runs the callback of the timer due first. Timers that share
     one delay fall due in the order they were set, so that is the oldest one.
     */
    method FireNext() returns (fired: bool)
      requires forall i :: 0 <= i < |pending| ==> pending[i].delay == pending[0].delay
      modifies this
      ensures fired <==> old(pending) != []
      ensures fired ==> log == old(log) + [old(pending)[0].url] && pending == old(pending)[1..]
      ensures !fired ==> log == old(log) && pending == old(pending)
    {
      fired := pending != [];
      if fired {
        var t := pending[0];
        pending := pending[1..];
        log := log + [t.url];
      }
    }
  }

  /** The page component; `targetUrl` is its one piece of state that is read back. */
  class App {
    const browser: Navigator
    var targetUrl: string

    /** Every timer still waiting is a handoff timer set by a dispatch. */
    ghost predicate Valid()
      reads this, browser
    {
      forall i :: 0 <= i < |browser.pending| ==> IsHandoffTimer(browser.pending[i])
    }

    /** The page before its mount effect has run, in a fresh browser. */
    constructor (userAgent: string)
      ensures Valid() && fresh(browser)
      ensures browser.userAgent == userAgent && browser.log == [] && browser.pending == []
      ensures targetUrl == ""
    {
      browser := new Navigator(userAgent);
      targetUrl := "";
    }

    /**
     `performRedirect(url)`: first the direct navigation to `url` itself, then,
     on Android only, exactly one handoff timer for it. Nothing recorded
     earlier changes, so repeated dispatches are independent.
     */
    method PerformRedirect(url: string)
      requires Valid()
      modifies browser
      ensures Valid()
      ensures browser.log == old(browser.log) + [url]
      ensures IsAndroid(browser.userAgent) ==>
                browser.pending == old(browser.pending) + [Timer(HANDOFF_DELAY, IntentUrl(url))]
      ensures !IsAndroid(browser.userAgent) ==> browser.pending == old(browser.pending)
    {
      browser.NavigateTo(url);
      if IsAndroid(browser.userAgent) {
        var cleanUrl := StripScheme(url);
        var intentUrl := INTENT_PREFIX + cleanUrl + INTENT_SUFFIX;
        IntentRoundTrip(url);
        browser.SetTimeout(HANDOFF_DELAY, intentUrl);
      }
    }

    /**
     The mount effect, with the random draw passed in as `index`: it stores the
     chosen link as `targetUrl` and dispatches that same link.
     */
    method Mount(index: nat)
      requires index < |LINKS|
      requires Valid()
      modifies this, browser
      ensures Valid()
      ensures targetUrl == LINKS[index]
      ensures browser.log == old(browser.log) + [targetUrl]
      ensures IsAndroid(browser.userAgent) ==>
                browser.pending == old(browser.pending) + [Timer(HANDOFF_DELAY, IntentUrl(targetUrl))]
      ensures !IsAndroid(browser.userAgent) ==> browser.pending == old(browser.pending)
    {
      var selectedUrl := LINKS[index];
      targetUrl := selectedUrl;
      PerformRedirect(selectedUrl);
    }

    /** The "Click if not redirected" button: dispatches `targetUrl` again and leaves it as it was. */
    method Retry()
      requires Valid()
      modifies browser
      ensures Valid()
      ensures targetUrl == old(targetUrl)
      ensures browser.log == old(browser.log) + [targetUrl]
      ensures IsAndroid(browser.userAgent) ==>
                browser.pending == old(browser.pending) + [Timer(HANDOFF_DELAY, IntentUrl(targetUrl))]
      ensures !IsAndroid(browser.userAgent) ==> browser.pending == old(browser.pending)
    {
      PerformRedirect(targetUrl);
    }

    /** A handoff timer falls due: the location is set to its intent URL. */
    method FireHandoff() returns (fired: bool)
      requires Valid()
      modifies browser
      ensures Valid()
      ensures fired <==> old(browser.pending) != []
      ensures fired ==> browser.pending == old(browser.pending)[1..]
      ensures fired ==> browser.log == old(browser.log) + [old(browser.pending)[0].url]
      ensures fired ==> ParseIntent(browser.log[|browser.log| - 1]).Some?
      ensures !fired ==> browser.log == old(browser.log) && browser.pending == old(browser.pending)
    {
      fired := browser.FireNext();
    }
  }

  /**
   A whole Android session: mount, press the retry button, let both timers
   fire. The location sees the link twice, then its handoff URL twice.
   */
  method AndroidSession(userAgent: string, index: nat) returns (app: App)
    requires IsAndroid(userAgent)
    requires index < |LINKS|
    ensures app.targetUrl == LINKS[index]
    ensures app.browser.pending == []
    ensures app.browser.log == [LINKS[index], LINKS[index], IntentUrl(LINKS[index]), IntentUrl(LINKS[index])]
  {
    app := new App(userAgent);
    app.Mount(index);
    app.Retry();
    var first := app.FireHandoff();
    var second := app.FireHandoff();
  }

  /** A desktop session: mount and retry navigate directly twice and set no timer. */
  method DesktopSession(userAgent: string, index: nat) returns (app: App)
    requires !IsAndroid(userAgent)
    requires index < |LINKS|
    ensures app.targetUrl == LINKS[index]
    ensures app.browser.pending == []
    ensures app.browser.log == [LINKS[index], LINKS[index]]
  {
    app := new App(userAgent);
    app.Mount(index);
    app.Retry();
    var fired := app.FireHandoff();
  }

  /** Every pool entry is an `https://` URL, so its handoff URL carries the rest of it verbatim. */
  lemma PoolHandoffs(index: nat)
    requires index < |LINKS|
    ensures HTTPS <= LINKS[index]
    ensures IntentUrl(LINKS[index]) == INTENT_PREFIX + LINKS[index][|HTTPS|..] + INTENT_SUFFIX
  {
    var url := LINKS[index];
    assert url[..8] == HTTPS;
    StripRemovesOnePrefix(HTTPS, url[|HTTPS|..]);
    assert url == HTTPS + url[|HTTPS|..];
  }
}
