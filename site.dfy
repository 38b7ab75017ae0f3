/** The module-level constants of the bot. */
module Site {

  /** Root of every page the bot reads; slugs are appended to it. */
  const BASE_URL: string := "https://www.oca.org"

  /** The fixed hashtag line that closes every post. */
  const TAGS: string := "#Christian #OrthodoxChristian #Orthodox #Orthostr #Saint"
}
