/** Folding an address: backend/internal/service/auth.go, NormalizeEmail. */
module Emails {
  import opened Text

  /** strings.ToLower, about which nothing is assumed. */
  type Lower = string -> string

  /** The one form an address is matched and limited on (service.NormalizeEmail). */
  function NormalizeEmail(lower: Lower, input: string): string {
    lower(TrimSpace(input))
  }

  /** Signup folds the trimmed address and login the typed one: the same thing. */
  lemma FoldingATrimmedAddress(lower: Lower, input: string)
    ensures NormalizeEmail(lower, TrimSpace(input)) == NormalizeEmail(lower, input)
  {
    TrimSpaceIdempotent(input);
  }
}
