/** What the page's handlers emit besides DOM changes: toast notifications
    (`showNotification`) and tracked analytics events (`trackEvent`). Both are
    recorded as values appended to logs; their timing and rendering are not modelled. */
module Effects {

  /** A `showNotification(message, type)` call. */
  datatype Toast = Toast(message: string, kind: string)

  /** A `trackEvent(name, data)` call, one constructor per event name the core emits. */
  datatype Event =
    | ScrollDepth(depth: string)                          // 'scroll_depth'
    | WishlistToggle(productId: string, action: string)   // 'wishlist_toggle'
    | AddToCart(productId: string, productName: string, size: string, price: nat)  // 'add_to_cart'

  const SuccessColor: string := "#4CAF50"
  const ErrorColor: string := "#F76560"
  const InfoColor: string := "#2196F3"

  /** The background of a toast: green for 'success', coral for 'error', blue for
      every other type, 'info' included. */
  function NotificationColor(kind: string): (color: string)
    ensures color == SuccessColor <==> kind == "success"
    ensures color == ErrorColor <==> kind == "error"
    ensures color == InfoColor <==> kind != "success" && kind != "error"
  {
    if kind == "success" then SuccessColor
    else if kind == "error" then ErrorColor
    else InfoColor
  }
}
