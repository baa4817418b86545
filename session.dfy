/**
 * The phone as the screens see it: the AsyncStorage key/value store, the
 * navigation stack, the alerts shown so far and the requests sent so far.
 * Storage calls are treated as completing in order; a stored object is kept
 * as the object itself (`JSON.stringify` and `JSON.parse` as exact inverses).
 */
module Session {
  import opened Wrappers
  import opened Js

  /** What a storage key holds: a plain string, or an object saved with `JSON.stringify`. */
  datatype Stored = Text(s: string) | Json(obj: JsonObject)

  /** An alert's message: plain text, or `JSON.stringify` of a server body. */
  datatype AlertText = Plain(text: string) | JsonOf(body: JsonObject)

  datatype Alert = Alert(title: string, message: AlertText)

  /** A screen on the navigation stack, with the `userData` route parameter when one was passed. */
  datatype Route = Route(name: string, userData: Option<JsonObject>)

  datatype Request = Request(verb: string, url: string)

  /** `navigation.replace`: the top screen is swapped for `route`. */
  function Replaced(stack: seq<Route>, route: Route): (r: seq<Route>)
    ensures |r| == if stack == [] then 1 else |stack|
    ensures r[|r| - 1] == route
    ensures stack != [] ==> r[..|r| - 1] == stack[..|stack| - 1]
  {
    if stack == [] then [route] else stack[..|stack| - 1] + [route]
  }

  class Device {
    var store: map<string, Stored>
    var stack: seq<Route>
    var alerts: seq<Alert>
    var requests: seq<Request>

    /** A fresh install, showing the role selection screen. */
    constructor ()
      ensures store == map[] && stack == [Route("RoleSelect", None)] && alerts == [] && requests == []
    {
      store := map[];
      stack := [Route("RoleSelect", None)];
      alerts := [];
      requests := [];
    }

    /** `AsyncStorage.setItem`. */
    method SetItem(key: string, value: Stored)
      modifies this
      ensures store == old(store)[key := value]
      ensures stack == old(stack) && alerts == old(alerts) && requests == old(requests)
    {
      store := store[key := value];
    }

    /** `AsyncStorage.clear`. */
    method Clear()
      modifies this
      ensures store == map[]
      ensures stack == old(stack) && alerts == old(alerts) && requests == old(requests)
    {
      store := map[];
    }

    /** `navigation.replace`. */
    method Replace(route: Route)
      modifies this
      ensures stack == Replaced(old(stack), route)
      ensures store == old(store) && alerts == old(alerts) && requests == old(requests)
    {
      stack := Replaced(stack, route);
    }

    /** `navigation.reset` to a single screen. */
    method Reset(route: Route)
      modifies this
      ensures stack == [route]
      ensures store == old(store) && alerts == old(alerts) && requests == old(requests)
    {
      stack := [route];
    }

    /** `Alert.alert` / `alert`. */
    method Show(alert: Alert)
      modifies this
      ensures alerts == old(alerts) + [alert]
      ensures store == old(store) && stack == old(stack) && requests == old(requests)
    {
      alerts := alerts + [alert];
    }

    /** An axios call going out; its outcome is supplied by the caller of the screen method. */
    method Send(request: Request)
      modifies this
      ensures requests == old(requests) + [request]
      ensures store == old(store) && stack == old(stack) && alerts == old(alerts)
    {
      requests := requests + [request];
    }
  }

  /** The effects of one handler, as a value: the new store, and what it appended or navigated to. */
  datatype Step = Step(store: map<string, Stored>, alerts: seq<Alert>, requests: seq<Request>, replaceWith: Option<Route>)
}
