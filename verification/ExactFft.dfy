/** fix_fft with its arithmetic read exactly computes the discrete Fourier transform divided by n. */
module ExactFft {
  import opened CArith
  import opened Pairs
  import opened ComplexNumbers
  import opened ButterflyNetwork
  import opened FftNetwork
  import opened FixFft

  /** The in-place program under the exact reading. */
  method ExactFixFft(iq: array<real>, m: nat, sinewave: seq<real>, logN: nat) returns (r: int)
    requires |sinewave| == Pow2(logN) * 3 / 4
    requires m <= logN ==> 2 * Pow2(m) <= iq.Length
    modifies iq
    ensures m > logN ==> r == -1 && iq[..] == old(iq[..])
    ensures m <= logN ==> r == 0 && iq[2 * Pow2(m)..] == old(iq[2 * Pow2(m)..])
    ensures m <= logN && (logN != 1 || m == 0) ==>
      forall omega: Complex | IsPrincipalRoot(omega, logN) && IsSineTable(sinewave, omega, logN) ::
        IsScaledDft(omega, logN, m, old(Points(iq[..], Pow2(m))), Points(iq[..], Pow2(m)))
  {
    hide Network, IsPrincipalRoot, IsSineTable, IsScaledDft;
    r := FixFft.FixFft(EXACT, iq, m, sinewave, logN);
    if m <= logN && (logN != 1 || m == 0) {
      ghost var p := old(Points(iq[..], Pow2(m)));
      forall omega: Complex | IsPrincipalRoot(omega, logN) && IsSineTable(sinewave, omega, logN)
        ensures IsScaledDft(omega, logN, m, p, Points(iq[..], Pow2(m)))
      {
        NetworkIsDft(sinewave, omega, logN, m, p);
      }
    }
  }
}
