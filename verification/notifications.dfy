/** The toast presenter `showNotification`: every element of the page that
    carries the class `notification` is removed, then one new toast, which
    carries that class, is appended to the body. The slide-in,
    the close button and the five-second auto-dismiss run on timers and are
    not part of this model. */
module Notifications {

  /** A toast: the message shown and its type (`'success'`, `'error'`, or
      anything else, which is styled as information). */
  datatype Notification = Notification(message: string, kind: string)

  /** A child of the document body, with its class attribute: a toast the
      presenter built, or any other element of the page. */
  datatype Node = Toast(note: Notification, className: string) | Other(id: nat, className: string)

  const SuccessColour := "#10b981"
  const ErrorColour := "#ef4444"
  const InfoColour := "#3b82f6"

  /** The background the toast is given, chosen by its type. */
  function Background(kind: string): (colour: string)
    ensures colour == SuccessColour <==> kind == "success"
    ensures colour == ErrorColour <==> kind == "error"
    ensures colour == InfoColour <==> kind != "success" && kind != "error"
  {
    if kind == "success" then SuccessColour
    else if kind == "error" then ErrorColour
    else InfoColour
  }

  /** The characters that separate the tokens of a class attribute: ASCII
      whitespace as HTML defines it. */
  predicate IsClassSeparator(c: char) {
    c == ' ' || c == '\t' || c == '\n' || c == '\U{000C}' || c == '\r'
  }

  /** Whether `token` is one of the whitespace-separated tokens of the class
      attribute `attr`, which is what a `.token` selector tests. */
  predicate HasClass(attr: string, token: string) {
    exists i | 0 <= i <= |attr| :: TokenAt(attr, token, i)
  }

  /** `token` stands as a whole token at position `i` of `attr`. */
  predicate TokenAt(attr: string, token: string, i: nat) {
    && i + |token| <= |attr|
    && attr[i..i + |token|] == token
    && (i == 0 || IsClassSeparator(attr[i - 1]))
    && (i + |token| == |attr| || IsClassSeparator(attr[i + |token|]))
  }

  /** A node the `.notification` selector matches. */
  predicate Selected(n: Node) {
    HasClass(n.className, "notification")
  }

  /** The class attribute the toast is given. It carries the class
      `notification`, which the `.notification` selector of the next call
      matches when it removes the toast, and, for a one-token type, the
      class `notification-` followed by the type. */
  function ClassName(kind: string): (c: string)
    ensures |c| == |"notification notification-"| + |kind|
    ensures c[..|"notification notification-"|] == "notification notification-"
    ensures c[|"notification notification-"|..] == kind
    ensures HasClass(c, "notification")
    ensures |kind| > 0 && (forall i | 0 <= i < |kind| :: !IsClassSeparator(kind[i])) ==>
      HasClass(c, "notification-" + kind)
  {
    var c := "notification notification-" + kind;
    assert c[0..|"notification"|] == "notification" && c[|"notification"|] == ' ';
    assert TokenAt(c, "notification", 0);
    assert c[13..13 + |"notification-" + kind|] == "notification-" + kind;
    assert c[12] == ' ';
    assert TokenAt(c, "notification-" + kind, 13);
    c
  }

  /** The class attribute names the type: two toasts of different types
      never share a class attribute. */
  lemma ClassNameDeterminesKind(k1: string, k2: string)
    ensures ClassName(k1) == ClassName(k2) <==> k1 == k2
  {
  }

  /** The toast `showNotification(message, kind)` appends. */
  function ToastFor(message: string, kind: string): Node {
    Toast(Notification(message, kind), ClassName(kind))
  }

  /** The number of nodes the `.notification` selector matches. */
  function NotificationCount(body: seq<Node>): (n: nat)
    ensures n <= |body|
  {
    if |body| == 0 then 0
    else (if Selected(body[0]) then 1 else 0) + NotificationCount(body[1..])
  }

  /** The body once every node the `.notification` selector matches has
      been removed: none is left, every other node stays, and nothing else
      is added or lost. */
  function ClearToasts(body: seq<Node>): (r: seq<Node>)
    ensures NotificationCount(r) == 0
    ensures |r| == |body| - NotificationCount(body)
    ensures forall n :: n in r <==> n in body && !Selected(n)
  {
    if |body| == 0 then []
    else if Selected(body[0]) then ClearToasts(body[1..])
    else [body[0]] + ClearToasts(body[1..])
  }

  lemma {:induction false} NotificationCountAppend(a: seq<Node>, b: seq<Node>)
    ensures NotificationCount(a + b) == NotificationCount(a) + NotificationCount(b)
  {
    if |a| > 0 {
      assert (a + b)[0] == a[0];
      assert (a + b)[1..] == a[1..] + b;
      NotificationCountAppend(a[1..], b);
    } else {
      assert a + b == b;
    }
  }

  lemma {:induction false} ClearToastsAppend(a: seq<Node>, b: seq<Node>)
    ensures ClearToasts(a + b) == ClearToasts(a) + ClearToasts(b)
  {
    if |a| == 0 {
      assert a + b == b;
    } else {
      assert (a + b)[0] == a[0];
      assert (a + b)[1..] == a[1..] + b;
      ClearToastsAppend(a[1..], b);
      if !Selected(a[0]) {
        assert ClearToasts(a + b) == [a[0]] + (ClearToasts(a[1..]) + ClearToasts(b));
        assert [a[0]] + (ClearToasts(a[1..]) + ClearToasts(b))
            == ([a[0]] + ClearToasts(a[1..])) + ClearToasts(b);
      }
    }
  }

  lemma {:induction false} ClearToastsIdempotent(body: seq<Node>)
    ensures ClearToasts(ClearToasts(body)) == ClearToasts(body)
  {
    if |body| > 0 {
      ClearToastsIdempotent(body[1..]);
      if !Selected(body[0]) {
        ClearToastsAppend([body[0]], ClearToasts(body[1..]));
        assert ClearToasts([body[0]]) == [body[0]];
      }
    }
  }

  /** `showNotification(message, kind)`: afterwards exactly one node matches
      `.notification`; it is the last child and carries the given message
      and type; and the page without its notifications is what it was
      before, in the same order. */
  function Show(body: seq<Node>, message: string, kind: string): (r: seq<Node>)
    ensures |r| > 0 && r[|r| - 1] == ToastFor(message, kind)
    ensures NotificationCount(r) == 1
    ensures ClearToasts(r) == ClearToasts(body)
    ensures forall n :: n in r[..|r| - 1] <==> n in body && !Selected(n)
  {
    var kept := ClearToasts(body);
    var toast := ToastFor(message, kind);
    assert Selected(toast);
    NotificationCountAppend(kept, [toast]);
    ClearToastsAppend(kept, [toast]);
    ClearToastsIdempotent(body);
    assert ClearToasts([toast]) == [];
    assert (kept + [toast])[..|kept|] == kept;
    kept + [toast]
  }

  /** A second toast replaces the first: showing two toasts in a row
      leaves the page as if only the second had been shown. */
  lemma ShowReplaces(body: seq<Node>, m1: string, k1: string, m2: string, k2: string)
    ensures Show(Show(body, m1, k1), m2, k2) == Show(body, m2, k2)
  {
  }

  /** Any element of the page that carries the class `notification`, not
      only a toast of ours, is removed by the next toast. */
  lemma ForeignNotificationRemoved(id: nat, m: string, k: string)
    ensures Show([Other(id, "banner notification")], m, k) == [ToastFor(m, k)]
  {
    var attr := "banner notification";
    assert attr[7..7 + |"notification"|] == "notification" && attr[6] == ' ';
    assert TokenAt(attr, "notification", 7);
    assert Selected(Other(id, attr));
  }
}
