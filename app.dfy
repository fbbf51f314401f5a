/** The application record the wrappers are methods of. Its definition lives in a file that
    is not part of this model; only the fields the wrappers read appear here. */
module App {
  import opened Text

  /** `secret` is kept as its UTF-8 bytes, the only form in which it is used (as MAC key). */
  datatype Credentials = Credentials(apiKey: string, secret: Bytes)

  /** `accessMode` is the text of `access_mode.as_string()`, left abstract. */
  datatype ShopifyApp = ShopifyApp(credentials: Credentials, scopes: seq<string>, accessMode: string)
}
