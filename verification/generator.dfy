/**
 * The license generator component: its state (the key on display, the
 * "copied" flag and the history) and the operations that overwrite it.
 */
module Generator {
  import opened Wrappers
  import opened JsText
  import opened KeyFormat
  import opened History

  /** The HMAC key, fixed in the component. */
  const Salt: string := "fg_2026_modern_secure_99"

  /**
   * HMAC-SHA-256 over the UTF-8 bytes of a key and a message, as the
   * platform's cryptography provides it; `None` when it fails.
   */
  type Signer = (string, string) -> Option<seq<Byte>>

  class LicenseGenerator {
    var licenseKey: string
    var copied: bool
    var history: seq<Generation>

    /** The history is well formed (see `History.WellFormed`). */
    predicate Valid()
      reads this
    {
      WellFormed(history)
    }

    /** The initial state: no key, not copied, empty history. */
    constructor ()
      ensures licenseKey == "" && !copied && history == []
      ensures Valid()
    {
      licenseKey := "";
      copied := false;
      history := [];
    }

    /**
     * `generateKey(mid)`: a blank id clears the key; a failing signer leaves
     * everything as it was; otherwise the derived key is displayed, the
     * copied flag is reset, and the history records the trimmed id unless it
     * is already at the head.
     */
    method Generate(mid: string, sign: Signer, now: int)
      modifies this
      ensures Trim(mid) == "" ==>
        licenseKey == "" && copied == old(copied) && history == old(history)
      ensures Trim(mid) != "" && sign(Salt, Trim(mid)).None? ==>
        licenseKey == old(licenseKey) && copied == old(copied) && history == old(history)
      ensures Trim(mid) != "" && sign(Salt, Trim(mid)).Some? ==>
        licenseKey == DeriveKey(sign(Salt, Trim(mid)).value) && !copied &&
        history == RecordIfNew(old(history), Generation(Trim(mid), licenseKey, now))
      ensures old(Valid()) ==> Valid()
    {
      var id := Trim(mid);
      if id == "" {
        licenseKey := "";
      } else {
        var signature := sign(Salt, id);
        if signature.Some? {
          var formatted := DeriveKey(signature.value);
          var newGen := Generation(id, formatted, now);
          var newHistory := history;
          if !(|history| > 0 && history[0].machineId == id) {
            newHistory := Take([newGen] + history, MaxHistory);
          }
          assert newHistory == RecordIfNew(history, newGen);
          assert IsTrimmedId(id);
          RecordIfNewWellFormed(history, newGen);
          licenseKey, copied, history := formatted, false, newHistory;
        }
      }
    }

    /** `handleCopy`: the copied flag is raised; nothing else changes. */
    method Copy()
      modifies this
      ensures copied
      ensures licenseKey == old(licenseKey) && history == old(history)
    {
      copied := true;
    }

    /** `clearHistory`: the history is empty, whatever it held; nothing else changes. */
    method ClearHistory()
      modifies this
      ensures history == []
      ensures licenseKey == old(licenseKey) && copied == old(copied)
      ensures Valid()
    {
      history := [];
    }
  }

  /**
   * Surrounding whitespace has no effect: two generators in the same state,
   * given an id with and without padding, end in the same state.
   */
  method PaddingIgnored(g1: LicenseGenerator, g2: LicenseGenerator, pre: string, id: string, post: string, sign: Signer, now: int)
    requires g1 != g2
    requires g1.licenseKey == g2.licenseKey && g1.copied == g2.copied && g1.history == g2.history
    requires AllWhitespace(pre) && AllWhitespace(post)
    modifies g1, g2
    ensures g1.licenseKey == g2.licenseKey && g1.copied == g2.copied && g1.history == g2.history
  {
    TrimIgnoresPadding(pre, id, post);
    g1.Generate(pre + id + post, sign, now);
    g2.Generate(id, sign, now);
  }

  /** Clearing twice is the same as clearing once. */
  method ClearTwice(g: LicenseGenerator)
    modifies g
    ensures g.history == [] && g.licenseKey == old(g.licenseKey) && g.copied == old(g.copied)
  {
    g.ClearHistory();
    g.ClearHistory();
  }
}
