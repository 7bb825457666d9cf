/** The request headers of Go's `net/http`, with names taken as already
    canonical and one value per name: `Get` reads the value or `""` when the
    name is absent, `Set` replaces it. */
module Http {

  type Header = map<string, string>

  function Get(h: Header, key: string): string {
    if key in h then h[key] else ""
  }

  function Set(h: Header, key: string, value: string): (h': Header)
    ensures Get(h', key) == value
    ensures h'.Keys == h.Keys + {key}
    ensures forall k :: k in h && k != key ==> h'[k] == h[k]
  {
    h[key := value]
  }
}
